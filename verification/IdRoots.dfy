/**
 Paths below a root and the ids that are made of them, whatever the root: an id is the path
 without the root as it was given, not as it is cleaned.  Exactly which ids lead back.
 */
module IdRoots {
  import opened Strings
  import opened Paths
  import opened PathIds

  // ---- The root is no prefix: the id is the whole path -----------------------------------------

  /** How many steps up a path starts with. */
  function Ups(elems: seq<string>): (n: nat)
    ensures n <= |elems| && elems[..n] == Repeat("..", n) && (n < |elems| ==> elems[n] != "..")
  {
    if elems == [] || elems[0] != ".." then 0 else 1 + Ups(elems[1..])
  }

  /** The steps up are as many as the steps down. */
  predicate Balanced(elems: seq<string>) {
    2 * Ups(elems) == |elems|
  }

  /** A canonical path goes up, and then only down. */
  lemma UpThenDown(p: Path)
    requires Canonical(p)
    ensures Downward(p.elems[Ups(p.elems)..]) && (p.rooted ==> Ups(p.elems) == 0)
    ensures p.elems == Repeat("..", Ups(p.elems)) + p.elems[Ups(p.elems)..]
  {
    var k := Ups(p.elems);
    if k < |p.elems| {
      DownAllTheWay(p, k);
      forall i | 0 <= i < |p.elems[k..]|
        ensures Normal(p.elems[k..][i])
      {
        assert p.elems[k..][i] == p.elems[k + i] && p.elems[k..][i] in p.elems[k..];
      }
    }
    if k > 0 {
      assert p.elems[0] == p.elems[..k][0] == "..";
    }
  }

  /** Steps up take back steps down. */
  lemma {:induction false} WalkBack(base: seq<string>, names: seq<string>, n: nat)
    requires Downward(names) && n <= |names|
    ensures Walk(false, base + names, Repeat("..", n)) == base + names[..|names| - n]
    decreases n
  {
    if n == 0 {
      assert names[..|names|] == names;
    } else {
      var fewer := names[..|names| - 1];
      OneUp(base + names, n);
      StepBack(base, names);
      WalkBack(base, fewer, n - 1);
      assert fewer[..|fewer| - (n - 1)] == names[..|names| - n];
    }
  }

  lemma OneUp(at: seq<string>, n: nat)
    requires n > 0
    ensures Walk(false, at, Repeat("..", n)) == Walk(false, Step(false, at, ".."), Repeat("..", n - 1))
  {
    assert Repeat("..", n)[1..] == Repeat("..", n - 1);
  }

  lemma StepBack(base: seq<string>, names: seq<string>)
    requires Downward(names) && names != []
    ensures Step(false, base + names, "..") == base + names[..|names| - 1]
  {
    var at := base + names;
    assert at[|at| - 1] == names[|names| - 1] && Normal(names[|names| - 1]);
    assert at[..|at| - 1] == base + names[..|names| - 1];
  }

  /** And go further up from there. */
  lemma {:induction false} WalkFurther(k: nat, n: nat)
    ensures Walk(false, Repeat("..", k), Repeat("..", n)) == Repeat("..", k + n)
    decreases n
  {
    if n > 0 {
      var at, up := Repeat("..", k), Repeat("..", n);
      RepeatUp(k);
      RepeatSnoc(k);
      assert up[0] == ".." && up[1..] == Repeat("..", n - 1);
      assert Step(false, at, "..") == at + [".."];
      WalkFurther(k + 1, n - 1);
    }
  }

  lemma {:induction false} RepeatSplits(a: nat, b: nat)
    ensures Repeat("..", a + b) == Repeat("..", a) + Repeat("..", b)
  {
    if a > 0 {
      RepeatSplits(a - 1, b);
    }
  }

  lemma WalkUps(k: nat, names: seq<string>, n: nat)
    requires Downward(names)
    ensures Walk(false, Repeat("..", k) + names, Repeat("..", n))
            == if n <= |names| then Repeat("..", k) + names[..|names| - n] else Repeat("..", k + (n - |names|))
  {
    if n <= |names| {
      WalkBack(Repeat("..", k), names, n);
    } else {
      var at, m := Repeat("..", k), |names|;
      RepeatSplits(m, n - m);
      WalkAppend(false, at + names, Repeat("..", m), Repeat("..", n - m));
      WalkBack(at, names, m);
      assert at + names[..0] == at;
      WalkFurther(k, n - m);
    }
  }

  lemma {:induction false} RepeatSnoc(k: nat)
    ensures Repeat("..", k) + [".."] == Repeat("..", k + 1)
  {
    if k > 0 {
      RepeatSnoc(k - 1);
      assert Repeat("..", k) + [".."] == [".."] + (Repeat("..", k - 1) + [".."]);
    }
  }

  /**
   A path that starts with the root's elements leads to itself, walked from the root, exactly
   when they are balanced.
   */
  lemma WalkTwice(r: Path, rest: seq<string>)
    requires Canonical(r) && Downward(rest)
    ensures Walk(r.rooted, r.elems, r.elems + rest) == r.elems + rest <==> Balanced(r.elems)
  {
    var ups, names := Repeat("..", Ups(r.elems)), r.elems[Ups(r.elems)..];
    UpThenDown(r);
    WalkFront(r);
    WalkOn(r.rooted, r.elems, ups, names, rest);
    SameFront(Walk(r.rooted, r.elems, ups), ups, names + rest);
  }

  lemma WalkOn(rooted: bool, at: seq<string>, first: seq<string>, names: seq<string>, rest: seq<string>)
    requires Downward(names) && Downward(rest) && at == first + names
    ensures Walk(rooted, at, at + rest) == Walk(rooted, at, first) + (names + rest)
    ensures at + rest == first + (names + rest)
  {
    var down := names + rest;
    assert at + rest == first + down;
    assert forall i :: 0 <= i < |down| ==> down[i] == if i < |names| then names[i] else rest[i - |names|];
    WalkAppend(rooted, at, first, down);
    WalkDown(rooted, Walk(rooted, at, first), down);
  }

  lemma SameFront(a: seq<string>, b: seq<string>, rest: seq<string>)
    requires a == b <==> |a| == |b|
    ensures a + rest == b + rest <==> a == b
  {
    if |a| != |b| {
      assert |a + rest| != |b + rest|;
    }
  }

  /** The steps up that a path starts with, walked from its end, lead to just these steps when it is balanced. */
  lemma WalkFront(r: Path)
    requires Canonical(r)
    ensures var ups := Repeat("..", Ups(r.elems));
            var there := Walk(r.rooted, r.elems, ups);
            (there == ups <==> Balanced(r.elems)) && (there == ups <==> |there| == |ups|)
  {
    var k := Ups(r.elems);
    var names := r.elems[k..];
    UpThenDown(r);
    RepeatUp(k);
    if r.rooted {
      assert names == r.elems;
    } else {
      RelativeFront(k, names);
    }
  }

  lemma RelativeFront(k: nat, names: seq<string>)
    requires Downward(names)
    ensures var there := Walk(false, Repeat("..", k) + names, Repeat("..", k));
            (there == Repeat("..", k) <==> k == |names|) && (there == Repeat("..", k) <==> |there| == k)
  {
    RepeatUp(k);
    WalkUps(k, names, k);
    if k < |names| {
      assert |Repeat("..", k) + names[..|names| - k]| == |names|;
    } else if k == |names| {
      assert Repeat("..", k) + names[..0] == Repeat("..", k);
    } else {
      RepeatUp(k + (k - |names|));
    }
  }

  // ---- The root is a prefix --------------------------------------------------------------------

  lemma ShownSize(p: Path)
    requires p.elems != []
    ensures |Show(p)| == Size(p.elems) - (if p.rooted then 0 else 1)
  {
    JoinSize(p.elems);
  }

  lemma ParsedSize(s: string)
    requires s != ""
    ensures Size(Parse(s).elems) <= |s| + 1
  {
    CleanShrinks(s);
    if Parse(s).elems != [] {
      ShownSize(Parse(s));
    }
  }

  /** An id from which more than the root and its slash was trimmed is too short to lead back. */
  lemma TooShort(root: string, p: Path, rest: seq<string>)
    requires root != "" && Canonical(p) && rest != [] && p == Path(Parse(root).rooted, Parse(root).elems + rest)
    requires root <= Show(p) && root != Show(p) && Under(root, Parse(Show(p)[|root|..])) == p
    ensures |root| <= Size(Parse(root).elems) + (if p.rooted then 1 else 0)
  {
    var r, id := Parse(root), Show(p)[|root|..];
    WalkSize(r.rooted, r.elems, Parse(id).elems);
    SizeAppend(r.elems, rest);
    ParsedSize(id);
    ShownSize(p);
  }

  /** The same of a reference, which may have lost a slash more. */
  lemma ReferenceTooShort(root: string, p: Path, rest: seq<string>)
    requires root != "" && Canonical(p) && rest != [] && p == Path(Parse(root).rooted, Parse(root).elems + rest)
    requires root <= Show(p) && root != Show(p)
    requires Joined(root, TrimPrefix(Show(p)[|root|..], "/")) == p
    ensures |root| <= Size(Parse(root).elems) + (if p.rooted then 1 else 0)
  {
    var r, ref := Parse(root), TrimPrefix(Show(p)[|root|..], "/");
    WalkSize(r.rooted, r.elems, Elements(ref));
    SizeAppend(r.elems, rest);
    SegmentsJoin(ref, "/");
    JoinSize(Elements(ref));
    ShownSize(p);
  }

  /** A root that is a proper prefix and is not too long is the cleaned one, with or without a slash more. */
  lemma PrefixRoots(root: string, p: Path, rest: seq<string>)
    requires root != "" && Canonical(p) && rest != [] && p == Path(Parse(root).rooted, Parse(root).elems + rest)
    requires root <= Show(p) && |root| <= Size(Parse(root).elems) + (if p.rooted then 1 else 0)
    ensures Tidy(root) || root == Clean(root) + "/"
  {
    var r := Parse(root);
    CleanShrinks(root);
    if r.elems != [] {
      ShownSize(r);
      EmptyIsDot();
      ShownFurther(r, p, rest);
      FrontPart(root, Clean(root), Join(rest, "/"));
    } else {
      assert root == "/" by {
        assert root[0] == '/' && |root| == 1;
      }
    }
  }

  lemma ShownFurther(r: Path, p: Path, rest: seq<string>)
    requires r.elems != [] && rest != [] && p == Path(r.rooted, r.elems + rest)
    ensures Show(p) == Show(r) + "/" + Join(rest, "/")
  {
    JoinAppend(r.elems, rest);
  }

  lemma FrontPart(root: string, front: string, rest: string)
    requires root <= front + "/" + rest && |front| <= |root| <= |front| + 1
    ensures root == front || root == front + "/"
  {
    var s := front + "/" + rest;
    assert s[..|front|] == front && s[..|front| + 1] == front + "/";
  }

  /** A root that was given with a slash at its end, but cleaned otherwise. */
  lemma SlashReturns(root: string, p: Path, rest: seq<string>)
    requires root != "" && Canonical(p) && Downward(rest) && rest != []
    requires p == Path(Parse(root).rooted, Parse(root).elems + rest)
    requires root == Clean(root) + "/" && root <= Show(p)
    ensures Under(root, Parse(Show(p)[|root|..])) == p && Show(p)[|root|..] == Show(Path(false, rest))
  {
    var r, id := Parse(root), Show(p)[|root|..];
    SlashGoesDown(root, p);
    ShownFurther(r, p, rest);
    assert Show(p) == root + Join(rest, "/");
    var below := Path(false, rest);
    DownwardCanonical(false, rest);
    ParseShow(below);
    assert id == Show(below);
    WalkDown(r.rooted, r.elems, rest);
  }

  /** No clean path starts with "//" or "./". */
  lemma CleanStart(p: Path)
    requires Canonical(p)
    ensures !("//" <= Show(p)) && !("./" <= Show(p))
  {
    if p.elems != [] {
      JoinStart(p.elems);
      var e := p.elems[0];
      assert Normal(e) || e == "..";
      if p.rooted {
        assert Show(p)[1] == e[0];
      } else {
        assert Show(p)[0] == e[0] && (|e| > 1 ==> Show(p)[1] == e[1]);
        assert e == "." || e[0] != '.' || (|e| > 1 && e[1] != '/');
      }
    }
  }

  lemma SlashGoesDown(root: string, p: Path)
    requires Canonical(p) && root == Clean(root) + "/" && root <= Show(p)
    ensures Parse(root).elems != []
  {
    CleanStart(p);
    assert "/" + "/" == "//" && "." + "/" == "./";
  }

  lemma WithinDownward(r: Path, p: Path)
    requires Within(r, p) && Canonical(p)
    ensures Downward(p.elems[|r.elems|..]) && p == Path(r.rooted, r.elems + p.elems[|r.elems|..])
  {
    WithinNormal(r, p);
    var rest := p.elems[|r.elems|..];
    forall i | 0 <= i < |rest|
      ensures Normal(rest[i])
    {
      assert rest[i] in rest;
    }
  }

  /** A path that the root is a proper prefix of goes on below it. */
  lemma ProperPrefix(root: string, p: Path, rest: seq<string>)
    requires root != "" && p == Path(Parse(root).rooted, Parse(root).elems + rest) && root <= Show(p) && root != Show(p)
    ensures rest != []
  {
    CleanShrinks(root);
    assert Parse(root).elems + [] == Parse(root).elems;
    assert |root| == |Show(p)| ==> root == Show(p);
  }

  lemma PrefixReturns(root: string, p: Path, rest: seq<string>)
    requires root != "" && !Tidy(root) && Canonical(p) && Downward(rest)
    requires p == Path(Parse(root).rooted, Parse(root).elems + rest) && root <= Show(p) && root != Show(p)
    ensures Under(root, Parse(Show(p)[|root|..])) == p <==> root == Clean(root) + "/"
  {
    ProperPrefix(root, p, rest);
    if root == Clean(root) + "/" {
      SlashReturns(root, p, rest);
    } else if Under(root, Parse(Show(p)[|root|..])) == p {
      TooShort(root, p, rest);
      PrefixRoots(root, p, rest);
    }
  }

  lemma TidyInFront(root: string, p: Path)
    requires root != "" && Tidy(root) && Canonical(p) && Within(Parse(root), p)
    ensures root <= Show(p)
  {
    var r := Parse(root);
    WithinDownward(r, p);
    var rest := p.elems[|r.elems|..];
    if rest == [] {
      assert p == r;
    } else if r.elems != [] {
      JoinAppend(r.elems, rest);
      assert Show(p) == root + ("/" + Join(rest, "/"));
    }
  }

  // ---- Exactly ---------------------------------------------------------------------------------

  /**
   If the root is a prefix of the path it must be empty, or cleaned and not ".", or that with a
   slash at its end, or the path itself; if it is not, what is left is the whole path, and the
   root must go up as far as it goes down.
   */
  predicate IdFits(root: string, pth: string) {
    if root <= pth then Tidy(root) || root == Clean(root) + "/" || root == pth else Balanced(Parse(root).elems)
  }

  /** An id, walked from the root, leads back to the path exactly then. */
  lemma IdLeadsExactly(root: string, p: Path)
    requires Canonical(p) && Within(Parse(root), p)
    ensures Under(root, Parse(TrimPrefix(Show(p), root))) == p <==> IdFits(root, Show(p))
  {
    var pth := Show(p);
    if Tidy(root) {
      IdLeads(root, p);
      JoinedClean(root, TrimPrefix(pth, root));
      if root != "" {
        TidyInFront(root, p);
      }
    } else {
      var r := Parse(root);
      WithinDownward(r, p);
      ParseShow(p);
      ParseCanonical(root);
      if root == pth {
        EmptyIsDot();
        assert TrimPrefix(pth, root) == "";
      } else if root <= pth {
        PrefixReturns(root, p, p.elems[|r.elems|..]);
      } else {
        WalkTwice(r, p.elems[|r.elems|..]);
      }
    }
  }

  /** And so does an id that lost the slash in front. */
  lemma ReferenceLeadsExactly(root: string, p: Path)
    requires Canonical(p) && Within(Parse(root), p)
    ensures Joined(root, TrimPrefix(TrimPrefix(Show(p), root), "/")) == p <==> IdFits(root, Show(p))
  {
    var pth := Show(p);
    if Tidy(root) {
      IdLeads(root, p);
      if root != "" {
        TidyInFront(root, p);
      }
    } else {
      var r := Parse(root);
      WithinDownward(r, p);
      ParseShow(p);
      ParseCanonical(root);
      if root == pth {
        JoinedEmpty(root);
        assert TrimPrefix(TrimPrefix(pth, root), "/") == "";
      } else if root <= pth {
        ReferencePrefix(root, p, p.elems[|r.elems|..]);
      } else {
        WholeReference(root, p);
        WalkTwice(r, p.elems[|r.elems|..]);
      }
    }
  }

  lemma ReferencePrefix(root: string, p: Path, rest: seq<string>)
    requires root != "" && !Tidy(root) && Canonical(p) && Downward(rest)
    requires p == Path(Parse(root).rooted, Parse(root).elems + rest) && root <= Show(p) && root != Show(p)
    ensures Joined(root, TrimPrefix(Show(p)[|root|..], "/")) == p <==> root == Clean(root) + "/"
  {
    ProperPrefix(root, p, rest);
    if root == Clean(root) + "/" {
      SlashReturns(root, p, rest);
      SlashReference(root, rest);
    } else if Joined(root, TrimPrefix(Show(p)[|root|..], "/")) == p {
      ReferenceTooShort(root, p, rest);
      PrefixRoots(root, p, rest);
    }
  }

  lemma SlashReference(root: string, rest: seq<string>)
    requires root != "" && Downward(rest) && rest != []
    ensures Joined(root, TrimPrefix(Show(Path(false, rest)), "/")) == Path(Parse(root).rooted, Parse(root).elems + rest)
  {
    var below := Path(false, rest);
    DownwardCanonical(false, rest);
    JoinStart(rest);
    assert Normal(rest[0]) && Show(below)[0] == rest[0][0];
    JoinedShown(root, below);
    WalkDown(Parse(root).rooted, Parse(root).elems, rest);
  }

  /** A whole path that loses the slash in front is walked from the root all the same. */
  lemma WholeReference(root: string, p: Path)
    requires root != "" && Canonical(p)
    ensures var r := Parse(root);
            Joined(root, TrimPrefix(Show(p), "/")) == Path(r.rooted, Walk(r.rooted, r.elems, p.elems))
  {
    if p.rooted {
      assert Show(p)[1..] == Join(p.elems, "/");
      if p.elems == [] {
        JoinedEmpty(root);
      } else {
        assert Canonical(Path(false, p.elems));
        JoinedShown(root, Path(false, p.elems));
      }
    } else {
      if p.elems != [] {
        JoinStart(p.elems);
        assert p.elems[0] != "" && NoSlash(p.elems[0]);
        assert Show(p)[0] == p.elems[0][0];
      }
      JoinedShown(root, p);
    }
  }
}
