/** What normalisation does to the end of a path, said of the strings alone. */
module PathLaws {
  import opened Path

  /** `c` below the directory with canonical path `dir`. */
  function Below(dir: string, c: string): string { (if dir == "/" then "" else dir) + "/" + c }

  lemma FirstComponent(c: string, rest: string)
    requires Plain(c) && (rest == "" || rest[0] == '/')
    ensures Components(c + rest) == [c] + Components(rest)
  {
    EndOfName(c, rest);
    assert (c + rest)[..|c|] == c && (c + rest)[|c|..] == rest;
  }

  lemma SlashInFront(s: string)
    ensures Components("/" + s) == Components(s)
  {
    assert ("/" + s)[1..] == s;
  }

  /** A slash separates components. */
  lemma {:induction false} ComponentsJoin(p: string, q: string)
    ensures Components(p + "/" + q) == Components(p) + Components(q)
    decreases |p|
  {
    if p == "" {
      assert "" + "/" + q == "/" + q;
      SlashInFront(q);
    } else {
      hide Components;
      var e := if p[0] == '/' then 1 else EndOf(p);
      var c, r := p[..e], p[e..];
      assert p == c + r;
      assert p + "/" + q == c + (r + "/" + q);
      ComponentsJoin(r, q);
      if p[0] == '/' {
        assert c == "/";
        SlashInFront(r);
        SlashInFront(r + "/" + q);
      } else {
        FirstComponent(c, r);
        FirstComponent(c, r + "/" + q);
        assert [c] + (Components(r) + Components(q)) == [c] + Components(r) + Components(q);
      }
    }
  }

  lemma {:induction false} FoldJoin(st: seq<string>, a: seq<string>, b: seq<string>)
    ensures Fold(st, a + b) == Fold(Fold(st, a), b)
    decreases |a|
  {
    if a == [] {
      assert a + b == b;
    } else {
      assert (a + b)[1..] == a[1..] + b;
      FoldJoin(Step(st, a[0]), a[1..], b);
    }
  }

  lemma OneComponent(c: string)
    requires '/' !in c
    ensures Components(c) == if c == "" then [] else [c]
  {
    EndOfName(c, "");
    assert c + "" == c;
  }

  /** The names that are left of a path. */
  function Left(p: string): seq<string> { Fold([], Components(p)) }

  lemma LeftJoin(p: string, c: string)
    requires '/' !in c
    ensures Left(p + "/" + c) == Step(Left(p), c)
  {
    hide Components, Step;
    ComponentsJoin(p, c);
    OneComponent(c);
    FoldJoin([], Components(p), Components(c));
    FoldOne(Left(p), c);
  }

  lemma FoldOne(st: seq<string>, c: string)
    ensures Fold(st, if c == "" then [] else [c]) == Step(st, c)
  {
    if c != "" {
      assert Fold(st, [c]) == Fold(Step(st, c), []);
    }
  }

  lemma LeftAreNames(p: string)
    ensures Names(Left(p))
  {
    ComponentsArePlain(p);
    FoldKeepsNames([], Components(p));
  }

  /** A name at the end of a path stays there. */
  lemma NameStays(p: string, c: string)
    requires Name(c)
    ensures Normal(p + "/" + c) == Below(Normal(p), c)
  {
    hide Components, Render;
    LeftJoin(p, c);
    LeftAreNames(p);
    RenderPush(Left(p), c);
    RootLength(Left(p));
  }

  /** ".." takes back the name before it, also where dots, further slashes or taken-back names come between. */
  lemma DotDotTakesBack(p: string, c: string)
    requires Name(c)
    ensures Normal(p + "/" + c + "/..") == Normal(p)
  {
    hide Components, Render;
    LeftJoin(p, c);
    LeftJoin(p + "/" + c, "..");
    assert p + "/" + c + "/.." == p + "/" + c + "/" + "..";
    assert (Left(p) + [c])[..|Left(p)|] == Left(p);
  }

  /** Wherever a path leads but to the root, ".." leads to the directory of its last name; from the root it leads to the root. */
  lemma DotDotIsParent(p: string)
    ensures Normal(p) == "/" ==> Normal(p + "/..") == "/"
    ensures Normal(p) != "/" ==> exists c: string :: Name(c) && Normal(p) == Below(Normal(p + "/.."), c)
  {
    hide Components, Render;
    LeftJoin(p, "..");
    assert p + "/.." == p + "/" + "..";
    LeftAreNames(p);
    LeftAreNames(p + "/..");
    RootLength(Left(p));
    RootLength(Left(p + "/.."));
    if Normal(p) != "/" {
      var st := Left(p);
      var c := st[|st| - 1];
      assert st == st[..|st| - 1] + [c];
      RenderPush(st[..|st| - 1], c);
      assert Name(c) && Normal(p) == Below(Normal(p + "/.."), c);
    }
  }

  /** "." and empty components change nothing. */
  lemma DotIsNothing(p: string)
    ensures Normal(p + "/.") == Normal(p) == Normal(p + "/")
  {
    hide Components, Render;
    LeftJoin(p, ".");
    LeftJoin(p, "");
    assert p + "/." == p + "/" + "." && p + "/" == p + "/" + "";
  }

  lemma SlashesAreOne(p: string, q: string)
    ensures Normal(p + "//" + q) == Normal(p + "/" + q)
  {
    ComponentsJoin(p, "/" + q);
    ComponentsJoin(p, q);
    ComponentsJoin("", q);
    assert "" + "/" + q == "/" + q;
    assert p + "//" + q == p + "/" + ("/" + q);
  }
}
