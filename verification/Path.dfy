/** Path normalisation: the in-place algorithm of the two copies, and the fold over path components that it computes. */
module Path {

  const EXT4_PATH_CAP: nat := 256
  const FS_PATH_CAP: nat := 64

  const OK := 0
  const NOT_ABSOLUTE := -22
  const TOO_LONG := -36

  // ---------- what normalisation means ----------

  /** Where the component at the start of `s` ends. */
  function EndOf(s: string): (n: nat)
    ensures n <= |s| && (n < |s| ==> s[n] == '/') && forall i :: 0 <= i < n ==> s[i] != '/'
  {
    if s == "" || s[0] == '/' then 0 else 1 + EndOf(s[1..])
  }

  /** The non-empty components of a path. */
  function Components(s: string): seq<string>
    decreases |s|
  {
    if s == "" then []
    else if s[0] == '/' then Components(s[1..])
    else [s[..EndOf(s)]] + Components(s[EndOf(s)..])
  }

  /** One component on a stack of directory names. */
  function Step(st: seq<string>, c: string): seq<string>
  {
    if c == "" || c == "." then st
    else if c == ".." then (if st == [] then [] else st[..|st| - 1])
    else st + [c]
  }

  function Fold(st: seq<string>, cs: seq<string>): seq<string>
    decreases |cs|
  {
    if cs == [] then st else Fold(Step(st, cs[0]), cs[1..])
  }

  /** The stack as a path, each name behind a slash. */
  function Slashed(st: seq<string>): string
  {
    if st == [] then "" else Slashed(st[..|st| - 1]) + "/" + st[|st| - 1]
  }

  function Render(st: seq<string>): (r: string)
    ensures |r| >= 1 && r[0] == '/'
  {
    SlashedStarts(st);
    if st == [] then "/" else Slashed(st)
  }

  lemma {:induction false} SlashedStarts(st: seq<string>)
    ensures st != [] ==> |Slashed(st)| >= 1 && Slashed(st)[0] == '/'
    decreases |st|
  {
    if |st| > 1 {
      SlashedStarts(st[..|st| - 1]);
    }
  }

  function Normal(path: string): string { Render(Fold([], Components(path))) }

  // ---------- names ----------

  /** A directory name that normalisation keeps. */
  predicate Name(c: string)
  {
    c != "" && c != "." && c != ".." && '/' !in c
  }

  predicate Names(st: seq<string>) { forall i :: 0 <= i < |st| ==> Name(st[i]) }

  predicate Plain(c: string) { c != "" && '/' !in c }

  lemma {:induction false} ComponentsArePlain(s: string)
    ensures forall i :: 0 <= i < |Components(s)| ==> Plain(Components(s)[i])
    decreases |s|
  {
    if s == "" {
    } else if s[0] == '/' {
      ComponentsArePlain(s[1..]);
    } else {
      ComponentsArePlain(s[EndOf(s)..]);
    }
  }

  lemma {:induction false} FoldKeepsNames(st: seq<string>, cs: seq<string>)
    requires Names(st) && forall i :: 0 <= i < |cs| ==> '/' !in cs[i]
    ensures Names(Fold(st, cs))
    decreases |cs|
  {
    if cs != [] {
      FoldKeepsNames(Step(st, cs[0]), cs[1..]);
    }
  }

  /** Folding names onto a stack appends them. */
  lemma {:induction false} FoldOfNames(st: seq<string>, cs: seq<string>)
    requires Names(cs)
    ensures Fold(st, cs) == st + cs
    decreases |cs|
  {
    if cs == [] {
      assert st + cs == st;
    } else {
      FoldOfNames(st + [cs[0]], cs[1..]);
      assert st + [cs[0]] + cs[1..] == st + cs;
    }
  }

  lemma {:induction false} EndOfName(c: string, rest: string)
    requires '/' !in c && (rest == "" || rest[0] == '/')
    ensures EndOf(c + rest) == |c|
  {
    if c == "" {
      assert c + rest == rest;
    } else {
      EndOfName(c[1..], rest);
      assert (c + rest)[1..] == c[1..] + rest;
    }
  }

  /** A slash and a name in front of a path put the name in front of its components. */
  lemma ComponentInFront(c: string, rest: string)
    requires Plain(c) && (rest == "" || rest[0] == '/')
    ensures Components("/" + c + rest) == [c] + Components(rest)
  {
    var s := c + rest;
    assert ("/" + c + rest)[1..] == s;
    EndOfName(c, rest);
    assert s[..|c|] == c && s[|c|..] == rest;
  }

  /** The components of a rendered stack are the stack. */
  lemma {:induction false} ComponentsOfSlashed(st: seq<string>, rest: string, tail: seq<string>)
    requires (forall i :: 0 <= i < |st| ==> Plain(st[i])) && (rest == "" || rest[0] == '/') && Components(rest) == tail
    ensures Components(Slashed(st) + rest) == st + tail
    decreases |st|
  {
    hide Components;
    if st == [] {
      assert Slashed(st) + rest == rest;
      assert st + tail == tail;
    } else {
      var n := |st| - 1;
      ComponentInFront(st[n], rest);
      ComponentsOfSlashed(st[..n], "/" + st[n] + rest, [st[n]] + tail);
      assert Slashed(st) + rest == Slashed(st[..n]) + ("/" + st[n] + rest);
      assert st[..n] + ([st[n]] + tail) == st + tail;
    }
  }

  lemma ComponentsOfRender(st: seq<string>)
    requires forall i :: 0 <= i < |st| ==> Plain(st[i])
    ensures Components(Render(st)) == st
  {
    ComponentsOfSlashed(st, "", []);
    assert Slashed(st) + "" == Slashed(st);
    if st == [] {
      assert Components("/") == [];
    }
  }

  // ---------- the promises of normalisation ----------

  /** A path in canonical form: the root, or names behind single slashes. */
  ghost predicate Canonical(s: string)
  {
    exists st: seq<string> :: Names(st) && s == Render(st)
  }

  lemma NormalIsCanonical(path: string)
    ensures Canonical(Normal(path))
  {
    ComponentsArePlain(path);
    FoldKeepsNames([], Components(path));
  }

  /** Canonical paths are exactly those that normalisation leaves alone. */
  lemma CanonicalIff(s: string)
    ensures Canonical(s) <==> Normal(s) == s
  {
    NormalIsCanonical(s);
    if Canonical(s) {
      var st: seq<string> :| Names(st) && s == Render(st);
      ComponentsOfRender(st);
      FoldOfNames([], st);
      assert [] + st == st;
    }
  }

  lemma NormalIsIdempotent(path: string)
    ensures Normal(Normal(path)) == Normal(path)
  {
    NormalIsCanonical(path);
    CanonicalIff(Normal(path));
  }

  /** Bytes that a list of components takes at most when rendered. */
  function Width(cs: seq<string>): nat
  {
    if cs == [] then 0 else 1 + |cs[0]| + Width(cs[1..])
  }

  lemma SlashedStep(st: seq<string>, c: string)
    ensures |Slashed(Step(st, c))| <= |Slashed(st)| + 1 + |c|
  {
    if c != "" && c != "." && c != ".." {
      assert (st + [c])[..|st|] == st;
    }
  }

  lemma {:induction false} FoldWidth(st: seq<string>, cs: seq<string>)
    ensures |Slashed(Fold(st, cs))| <= |Slashed(st)| + Width(cs)
    decreases |cs|
  {
    if cs != [] {
      SlashedStep(st, cs[0]);
      FoldWidth(Step(st, cs[0]), cs[1..]);
    }
  }

  lemma {:induction false} ComponentsWidth(s: string)
    ensures Width(Components(s)) <= |s| + 1 && (s != "" && s[0] == '/' ==> Width(Components(s)) <= |s|)
    decreases |s|
  {
    if s != "" {
      if s[0] == '/' {
        ComponentsWidth(s[1..]);
      } else {
        ComponentsWidth(s[EndOf(s)..]);
        assert Components(s)[1..] == Components(s[EndOf(s)..]);
      }
    }
  }

  /** The normal form of an absolute path is never longer than the path. */
  lemma NormalIsNoLonger(path: string)
    requires path != "" && path[0] == '/'
    ensures |Normal(path)| <= |path|
  {
    FoldWidth([], Components(path));
    ComponentsWidth(path);
  }

  // ---------- the algorithm ----------

  /** The string in a buffer: its first `len` characters, with a NUL behind them. */
  predicate Holds(b: seq<char>, cap: nat, len: nat, s: string)
  {
    cap <= |b| && len < cap && |s| == len && b[..len] == s && b[len] == '\0'
  }

  method AppendChar(dst: array<char>, cap: nat, len: nat, c: char) returns (rc: int, len1: nat)
    requires cap <= dst.Length && len < dst.Length
    modifies dst
    ensures rc == OK <==> len + 1 < cap
    ensures rc == OK ==> len1 == len + 1 && Holds(dst[..], cap, len1, old(dst[..len]) + [c])
    ensures rc != OK ==> rc == TOO_LONG && len1 == len && dst[..] == old(dst[..])
  {
    if len + 1 >= cap {
      return TOO_LONG, len;
    }
    dst[len] := c;
    dst[len + 1] := '\0';
    rc, len1 := OK, len + 1;
  }

  method AppendAll(dst: array<char>, cap: nat, len: nat, comp: string) returns (rc: int, len1: nat)
    requires cap <= dst.Length && len < cap && dst[len] == '\0'
    modifies dst
    ensures rc == OK <==> len + |comp| < cap
    ensures rc == OK ==> Holds(dst[..], cap, len1, old(dst[..len]) + comp)
    ensures rc != OK ==> rc == TOO_LONG
  {
    ghost var base := dst[..len];
    len1 := len;
    for i := 0 to |comp|
      invariant len1 == len + i < cap && dst[..len1] == base + comp[..i] && dst[len1] == '\0'
    {
      rc, len1 := AppendChar(dst, cap, len1, comp[i]);
      if rc != OK {
        return;
      }
      assert comp[..i + 1] == comp[..i] + [comp[i]];
    }
    assert comp[..|comp|] == comp;
    rc := OK;
  }

  lemma SlashedPush(st: seq<string>, c: string)
    ensures Slashed(st + [c]) == Slashed(st) + "/" + c
  {
    assert (st + [c])[..|st|] == st;
  }

  lemma RenderLength(st: seq<string>)
    requires Names(st)
    ensures |Render(st)| > 1 <==> st != []
    ensures st != [] ==> Render(st) == Slashed(st[..|st| - 1]) + "/" + st[|st| - 1]
  {
  }

  /** Drops the last name of the path in the buffer. */
  method DropLast(dst: array<char>, cap: nat, len: nat, ghost st: seq<string>) returns (len1: nat)
    requires Names(st) && Holds(dst[..], cap, len, Render(st))
    modifies dst
    ensures Names(Step(st, "..")) && Holds(dst[..], cap, len1, Render(Step(st, "..")))
  {
    hide Render, Slashed, Names;
    len1 := len;
    LastName(st);
    if len > 1 {
      ghost var base, last := Slashed(st[..|st| - 1]), st[|st| - 1];
      assert dst[|base|] == dst[..len][|base|] == '/';
      forall i | |base| < i < len
        ensures dst[i] != '/'
      {
        assert dst[..len][i] == last[i - |base| - 1];
      }
      while len1 > 1 && dst[len1 - 1] != '/'
        invariant |base| + 1 <= len1 <= len && dst[..] == old(dst[..])
      {
        len1 := len1 - 1;
      }
      if len1 > 1 {
        len1 := len1 - 1;
      }
      assert dst[..len1] == dst[..len][..len1];
      dst[len1] := '\0';
    }
  }

  /** The last name of a path, and what is left without it. */
  lemma LastName(st: seq<string>)
    requires Names(st)
    ensures Names(Step(st, "..")) && (|Render(st)| == 1 ==> Step(st, "..") == st)
    ensures |Render(st)| > 1 ==>
      && st != [] && '/' !in st[|st| - 1]
      && var base := Slashed(st[..|st| - 1]);
      && Render(st) == base + "/" + st[|st| - 1]
      && Render(Step(st, "..")) == Render(st)[..if base == "" then 1 else |base|]
  {
    if st != [] {
      var base := Slashed(st[..|st| - 1]);
      SlashedStarts(st[..|st| - 1]);
      assert Slashed(st)[..|base|] == base;
      assert Slashed(st) == base + "/" + st[|st| - 1];
      if |st| > 1 {
        assert base != "";
      } else {
        assert Slashed(st)[..1] == "/";
      }
    }
  }

  predicate IsDot(c: string) { |c| == 0 || (|c| == 1 && c[0] == '.') }
  predicate IsDotDot(c: string) { |c| == 2 && c[0] == '.' && c[1] == '.' }

  /** The three kinds of components. */
  lemma StepCases(st: seq<string>, c: string)
    requires Names(st) && '/' !in c
    ensures IsDot(c) ==> Step(st, c) == st
    ensures IsDotDot(c) ==> c == ".." && !IsDot(c)
    ensures !IsDot(c) && !IsDotDot(c) ==> Step(st, c) == st + [c] && Names(st + [c])
  {
    if !IsDot(c) && !IsDotDot(c) {
      assert c != "" && c != "." && c != "..";
    }
  }

  lemma RenderPush(st: seq<string>, c: string)
    ensures Render(st + [c]) == (if st == [] then "" else Render(st)) + "/" + c
  {
    SlashedPush(st, c);
  }

  /** Puts a name behind the path in the buffer. */
  method PushName(dst: array<char>, cap: nat, len: nat, comp: string, ghost st: seq<string>) returns (rc: int, len1: nat)
    requires Names(st) && Holds(dst[..], cap, len, Render(st))
    modifies dst
    ensures rc == OK <==> |Render(st + [comp])| < cap
    ensures rc == OK ==> Holds(dst[..], cap, len1, Render(st + [comp]))
    ensures rc != OK ==> rc == TOO_LONG
  {
    hide Render, Names;
    RenderPush(st, comp);
    RootLength(st);
    len1 := len;
    if len > 1 {
      rc, len1 := AppendChar(dst, cap, len, '/');
      if rc != OK {
        return;
      }
    }
    assert dst[..len1] == (if st == [] then "" else Render(st)) + "/";
    rc, len1 := AppendAll(dst, cap, len1, comp);
  }

  lemma RootLength(st: seq<string>)
    requires Names(st)
    ensures |Render(st)| > 1 <==> st != []
    ensures Render([]) == "/"
  {
    RenderLength(st);
  }

  /** Applies one component to the path in the buffer: the same as one step on the stack of names. */
  method AppendComponent(dst: array<char>, cap: nat, len: nat, comp: string, ghost st: seq<string>) returns (rc: int, len1: nat)
    requires Names(st) && Holds(dst[..], cap, len, Render(st)) && '/' !in comp
    modifies dst
    ensures !IsDotDot(comp) ==> (rc == OK <==> |Render(Step(st, comp))| < cap)
    ensures IsDotDot(comp) ==> rc == OK
    ensures rc == OK ==> Names(Step(st, comp)) && Holds(dst[..], cap, len1, Render(Step(st, comp)))
    ensures rc != OK ==> rc == TOO_LONG
  {
    hide Render, Names, Step;
    StepCases(st, comp);
    len1 := len;
    if |comp| == 0 || (|comp| == 1 && comp[0] == '.') {
      return OK, len;
    }
    if |comp| == 2 && comp[0] == '.' && comp[1] == '.' {
      len1 := DropLast(dst, cap, len, st);
      return OK, len1;
    }
    rc, len1 := PushName(dst, cap, len, comp, st);
  }

  // ---------- a whole path ----------

  /** Skipping slashes leaves the components of what is left as they were. */
  lemma SkipSlash(s: string, pos: nat)
    requires pos < |s| && s[pos] == '/'
    ensures Components(s[pos..]) == Components(s[pos + 1..])
  {
    assert s[pos..][1..] == s[pos + 1..];
  }

  lemma TakeComponent(s: string, start: nat, pos: nat)
    requires start <= pos <= |s| && (pos < |s| ==> s[pos] == '/') && forall i :: start <= i < pos ==> s[i] != '/'
    ensures start < pos ==> Components(s[start..]) == [s[start..pos]] + Components(s[pos..])
  {
    if start < pos {
      assert s[start..] == s[start..pos] + s[pos..];
      EndOfName(s[start..pos], s[pos..]);
    }
  }

  /** What is left of the room: the path built so far and the components still to come fit. */
  ghost predicate Room(st: seq<string>, cs: seq<string>, cap: nat)
  {
    |Slashed(st)| + Width(cs) < cap
  }

  lemma RoomStep(st: seq<string>, s: string, start: nat, pos: nat, cap: nat)
    requires Names(st) && start < pos <= |s| && Components(s[start..]) == [s[start..pos]] + Components(s[pos..])
    requires Room(st, Components(s[start..]), cap) && cap > 1
    ensures Room(Step(st, s[start..pos]), Components(s[pos..]), cap) && |Render(Step(st, s[start..pos]))| < cap
    ensures Fold(st, Components(s[start..])) == Fold(Step(st, s[start..pos]), Components(s[pos..]))
  {
    var c := s[start..pos];
    SlashedStep(st, c);
    var cs := Components(s[start..]);
    assert cs[0] == c && cs[1..] == Components(s[pos..]);
  }

  method SkipSlashes(s: string, from: nat) returns (pos: nat)
    requires from <= |s|
    ensures from <= pos <= |s| && Components(s[pos..]) == Components(s[from..])
    ensures pos < |s| ==> s[pos] != '/'
    ensures from < |s| && s[from] == '/' ==> from < pos
  {
    hide Components;
    pos := from;
    while pos < |s| && s[pos] == '/'
      invariant from <= pos <= |s| && Components(s[pos..]) == Components(s[from..])
    {
      SkipSlash(s, pos);
      pos := pos + 1;
    }
  }

  method FindSlash(s: string, from: nat) returns (pos: nat)
    requires from <= |s|
    ensures from <= pos <= |s| && (pos < |s| ==> s[pos] == '/') && forall i :: from <= i < pos ==> s[i] != '/'
    ensures from < |s| && s[from] != '/' ==> from < pos
  {
    pos := from;
    while pos < |s| && s[pos] != '/'
      invariant from <= pos <= |s| && forall i :: from <= i < pos ==> s[i] != '/'
    {
      pos := pos + 1;
    }
  }

  lemma StartRoom(path: string, cap: nat)
    requires path != "" && path[0] == '/' && |path| < cap
    ensures Names([]) && Render([]) == "/" && Room([], Components(path[1..]), cap)
    ensures Render(Fold([], Components(path[1..]))) == Normal(path)
  {
    ComponentsWidth(path[1..]);
    ComponentsWidth(path);
  }

  lemma EmptyStep(st: seq<string>)
    ensures Step(st, "") == st
  {
  }

  lemma NothingLeft(s: string, pos: nat, st: seq<string>)
    requires pos == |s|
    ensures Fold(st, Components(s[pos..])) == st
  {
  }

  /** Normalises an absolute path. It fails only if the path is not absolute or does not fit the limit. */
  method NormalizeAbsolute(input: string, cap: nat, out: array<char>) returns (rc: int, len: nat)
    requires 1 < cap <= out.Length
    modifies out
    ensures rc == OK <==> input != "" && input[0] == '/' && |input| < cap
    ensures rc == OK ==> Holds(out[..], cap, len, Normal(input))
    ensures input == "" || input[0] != '/' ==> rc == NOT_ABSOLUTE
    ensures rc != OK && input != "" && input[0] == '/' ==> rc == TOO_LONG
  {
    hide Components, Render, Slashed, Step, Width, Names, EndOf, Room, Fold;
    len := 0;
    if |input| == 0 || input[0] != '/' {
      return NOT_ABSOLUTE, 0;
    }
    var inLen := if |input| < cap then |input| else cap;
    if inLen >= cap {
      return TOO_LONG, 0;
    }
    out[0], out[1] := '/', '\0';
    len := 1;
    var pos := 1;
    ghost var st: seq<string> := [];
    StartRoom(input, cap);
    assert out[..1] == "/";
    while pos <= inLen
      invariant 1 <= pos <= inLen && Names(st) && Holds(out[..], cap, len, Render(st))
      invariant Room(st, Components(input[pos..]), cap) && Render(Fold(st, Components(input[pos..]))) == Normal(input)
      decreases inLen - pos
    {
      pos := SkipSlashes(input, pos);
      var start := pos;
      pos := FindSlash(input, pos);
      TakeComponent(input, start, pos);
      if start < pos {
        RoomStep(st, input, start, pos, cap);
      } else {
        EmptyStep(st);
      }
      rc, len := AppendComponent(out, cap, len, input[start..pos], st);
      st := Step(st, input[start..pos]);
      if rc != OK {
        return;
      }
      if pos >= inLen {
        break;
      }
    }
    NothingLeft(input, pos, st);
    rc := OK;
  }

  // ---------- the two copies, and relative paths ----------

  /** Below the smaller limit the two copies of the algorithm agree: each accepts the path and returns its normal form. */
  method BothNormalize(input: string, a: array<char>, b: array<char>) returns (rcFs: int, lenFs: nat, rcSys: int, lenSys: nat)
    requires EXT4_PATH_CAP <= a.Length && FS_PATH_CAP <= b.Length && a != b
    modifies a, b
    ensures |input| < FS_PATH_CAP ==> (rcFs == OK <==> rcSys == OK)
    ensures rcFs == OK ==> Holds(a[..], EXT4_PATH_CAP, lenFs, Normal(input))
    ensures rcSys == OK ==> Holds(b[..], FS_PATH_CAP, lenSys, Normal(input))
    ensures rcSys == OK ==> rcFs == OK
    ensures rcFs == OK && rcSys != OK <==> input != "" && input[0] == '/' && FS_PATH_CAP <= |input| < EXT4_PATH_CAP
  {
    rcFs, lenFs := NormalizeAbsolute(input, EXT4_PATH_CAP, a);
    rcSys, lenSys := NormalizeAbsolute(input, FS_PATH_CAP, b);
  }

  /** The path that a relative one stands for. */
  function Combined(cwd: string, path: string): string
  {
    if |cwd| > 1 then cwd + "/" + path else cwd + path
  }

  /** Resolves a path against the current directory. */
  method ResolvePath(path: string, cwd: string, out: array<char>) returns (rc: int, len: nat)
    requires FS_PATH_CAP <= out.Length && cwd != "" && cwd[0] == '/' && |cwd| < FS_PATH_CAP
    modifies out
    ensures rc == OK <==> path != "" && (if path[0] == '/' then |path| < FS_PATH_CAP else |Combined(cwd, path)| < FS_PATH_CAP)
    ensures rc == OK ==> Holds(out[..], FS_PATH_CAP, len, if path[0] == '/' then Normal(path) else Normal(cwd + "/" + path))
  {
    len := 0;
    if |path| == 0 {
      return NOT_ABSOLUTE, 0;
    }
    if path[0] == '/' {
      rc, len := NormalizeAbsolute(path, FS_PATH_CAP, out);
      return;
    }
    var combined := new char[FS_PATH_CAP](_ => '\0');
    var n;
    rc, n := AppendAll(combined, FS_PATH_CAP, 0, cwd);
    if n > 1 {
      rc, n := AppendChar(combined, FS_PATH_CAP, n, '/');
      if rc != OK {
        return;
      }
    }
    assert combined[..n] == if |cwd| > 1 then cwd + "/" else cwd;
    rc, n := AppendAll(combined, FS_PATH_CAP, n, path);
    if rc != OK {
      return;
    }
    CombinedNormal(cwd, path);
    assert combined[..n] == Combined(cwd, path);
    rc, len := NormalizeAbsolute(combined[..n], FS_PATH_CAP, out);
  }

  lemma SlashFront(s: string)
    ensures Components("/" + s) == Components(s)
  {
    assert ("/" + s)[1..] == s;
  }

  /** Leaving out the slash behind the root makes no difference. */
  lemma CombinedNormal(cwd: string, path: string)
    requires cwd != "" && cwd[0] == '/'
    ensures Normal(Combined(cwd, path)) == Normal(cwd + "/" + path)
    ensures Combined(cwd, path) != "" && Combined(cwd, path)[0] == '/'
  {
    hide Components, Fold, Render;
    if |cwd| == 1 {
      assert cwd == "/";
      SlashFront(path);
      SlashFront("/" + path);
      assert cwd + "/" + path == "/" + ("/" + path);
    }
  }
}
