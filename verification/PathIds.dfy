/**
 The ids that the filesystem managers hand out: a path without the root in front.  What an
 id leads to when it is joined to the root again.
 */
module PathIds {
  import opened Strings
  import opened Decimal
  import opened Paths

  /** Where a path leads that is walked from the root. */
  function Under(root: string, p: Path): Path {
    if root == "" then p else Path(Parse(root).rooted, Walk(Parse(root).rooted, Parse(root).elems, p.elems))
  }

  predicate Downward(elems: seq<string>) {
    forall i :: 0 <= i < |elems| ==> Normal(elems[i])
  }

  lemma DownwardCanonical(rooted: bool, elems: seq<string>)
    requires Downward(elems)
    ensures Canonical(Path(rooted, elems))
  {
  }

  lemma {:induction false} WalkDown(rooted: bool, at: seq<string>, elems: seq<string>)
    requires Downward(elems)
    ensures Walk(rooted, at, elems) == at + elems
    decreases |elems|
  {
    if elems == [] {
      assert at + elems == at;
    } else {
      WalkDown(rooted, at + [elems[0]], elems[1..]);
      assert at + [elems[0]] + elems[1..] == at + elems;
    }
  }

  /** A shown path is walked like its elements: its root and its "." stay where they are. */
  lemma WalkShown(rooted: bool, at: seq<string>, p: Path)
    requires Canonical(p)
    ensures Walk(rooted, at, Elements(Show(p))) == Walk(rooted, at, p.elems)
  {
    if p.elems != [] {
      ElementsOfJoin(p.elems);
    }
    if p.rooted {
      ElementsOf("");
      ElementsAppend("", Join(p.elems, "/"));
      assert "" + "/" + Join(p.elems, "/") == Show(p);
      var es := Elements(Show(p));
      assert es == [""] + Elements(Join(p.elems, "/"));
      assert es[1..] == Elements(Join(p.elems, "/"));
      if p.elems == [] {
        assert es[1..] == [""] && es[1..][1..] == [];
      }
    } else if p.elems == [] {
      ElementsOf(".");
      assert ["."][1..] == [];
    }
  }

  lemma JoinedShown(root: string, p: Path)
    requires Canonical(p)
    ensures Joined(root, Show(p)) == Under(root, p)
  {
    if root == "" {
      ParseShow(p);
    } else {
      WalkShown(Parse(root).rooted, Parse(root).elems, p);
    }
  }

  lemma JoinedEmpty(root: string)
    ensures Joined(root, "") == Parse(root)
  {
    ElementsOf("");
    EmptyIsDot();
    assert [""][1..] == [];
  }

  /** A path that was cleaned before the join leads where its elements lead. */
  lemma JoinedClean(root: string, name: string)
    ensures Joined(root, JoinPath([name])) == Under(root, Parse(name))
  {
    EmptyIsDot();
    JoinOne(name);
    if name == "" {
      JoinedEmpty(root);
    } else {
      ParseCanonical(name);
      JoinedShown(root, Parse(name));
    }
  }

  lemma JoinedJoin(root: string, a: string, b: string)
    ensures Joined(root, JoinPath([a, b])) == Under(root, Joined(a, b))
  {
    JoinLeads(a, b);
    if a == "" && b == "" {
      JoinTwo(a, b);
      JoinedEmpty(root);
      EmptyIsDot();
    } else {
      JoinedShown(root, Joined(a, b));
    }
  }

  /** One name further down. */
  lemma UnderChild(root: string, p: Path, e: string)
    requires Normal(e)
    ensures Under(root, Path(p.rooted, p.elems + [e])) == Path(Under(root, p).rooted, Under(root, p).elems + [e])
  {
    var r := Parse(root);
    WalkAppend(r.rooted, r.elems, p.elems, [e]);
    WalkDown(r.rooted, Walk(r.rooted, r.elems, p.elems), [e]);
  }

  lemma JoinedChild(root: string, e: string)
    requires Normal(e)
    ensures Joined(root, e) == Path(Parse(root).rooted, Parse(root).elems + [e])
  {
    ElementsOf(e);
    EmptyIsDot();
    WalkDown(Parse(root).rooted, Parse(root).elems, [e]);
    WalkDown(false, [], [e]);
  }

  /** A version name is a step down. */
  lemma FormatNormal(n: nat)
    ensures Normal(Format(n)) && Format(n) != "metadata"
  {
    assert '0' <= Format(n)[0] <= '9';
  }

  // ---- Ids ------------------------------------------------------------------------------

  /** The roots for which the prefix that is trimmed is what stands in front of a path. */
  predicate Tidy(root: string) {
    root == "" || (Clean(root) == root && root != ".")
  }

  lemma {:induction false} JoinAppend(a: seq<string>, b: seq<string>)
    requires a != [] && b != []
    ensures Join(a + b, "/") == Join(a, "/") + "/" + Join(b, "/")
    decreases |a|
  {
    if |a| == 1 {
      assert (a + b)[1..] == b;
    } else {
      JoinAppend(a[1..], b);
      assert (a + b)[1..] == a[1..] + b;
    }
  }

  /** What is left of a shown path when the root is trimmed: nothing, or the steps below the root. */
  lemma TrimmedBelow(root: string, p: Path)
    requires root != "" && Tidy(root) && Within(Parse(root), p) && Canonical(p)
    ensures var rest := p.elems[|Parse(root).elems|..];
            && Downward(rest) && p.elems == Parse(root).elems + rest
            && TrimPrefix(Show(p), root) == if rest == [] then "" else Show(Path(Parse(root).elems != [], rest))
  {
    var r := Parse(root);
    var rest := p.elems[|r.elems|..];
    WithinNormal(r, p);
    forall i | 0 <= i < |rest|
      ensures Normal(rest[i])
    {
      assert rest[i] in rest;
    }
    if rest == [] {
      assert p == r;
    } else {
      TrimmedShown(root, r, p, rest);
    }
  }

  lemma TrimmedShown(root: string, r: Path, p: Path, rest: seq<string>)
    requires root == Show(r) && (r.rooted || r.elems != []) && rest != []
    requires p == Path(r.rooted, r.elems + rest)
    ensures TrimPrefix(Show(p), root) == Show(Path(r.elems != [], rest))
  {
    if r.elems != [] {
      JoinAppend(r.elems, rest);
      assert Show(p) == root + ("/" + Join(rest, "/"));
    } else {
      assert r.elems + rest == rest;
    }
  }

  /** An id, and an id without its leading slash, leads back to the path. */
  lemma IdLeads(root: string, p: Path)
    requires Tidy(root) && Within(Parse(root), p) && Canonical(p)
    ensures var id := TrimPrefix(Show(p), root);
            && Joined(root, id) == p && Joined(root, JoinPath([id])) == p && Joined(root, TrimPrefix(id, "/")) == p
  {
    var id: string := TrimPrefix(Show(p), root);
    var r := Parse(root);
    JoinOne(id);
    if root == "" {
      EmptyIsDot();
      ParseShow(p);
      CleanIdempotent(Show(p));
      assert !p.rooted;
      if p.elems != [] {
        JoinStart(p.elems);
        assert p.elems[0] in p.elems;
        assert NoSlash(p.elems[0]) && p.elems[0] != "";
        assert Show(p)[0] == p.elems[0][0];
      }
      assert !("/" <= id);
    } else {
      TrimmedBelow(root, p);
      var rest := p.elems[|r.elems|..];
      if rest == [] {
        JoinedEmpty(root);
        assert p == r;
      } else {
        var below := Path(r.elems != [], rest);
        DownwardCanonical(true, rest);
        DownwardCanonical(false, rest);
        ParseShow(below);
        WalkDown(r.rooted, r.elems, rest);
        JoinedShown(root, below);
        JoinedShown(root, Path(false, rest));
        JoinStart(rest);
        assert Normal(rest[0]);
        if below.rooted {
          assert "/" <= id && id[1..] == Show(Path(false, rest));
        } else {
          assert Show(below)[0] == rest[0][0];
        }
      }
    }
  }

  /** Cleaning never makes a path longer. */
  function Size(elems: seq<string>): nat {
    if elems == [] then 0 else |elems[0]| + 1 + Size(elems[1..])
  }

  lemma {:induction false} SizeAppend(a: seq<string>, b: seq<string>)
    ensures Size(a + b) == Size(a) + Size(b)
    decreases |a|
  {
    if a == [] {
      assert a + b == b;
    } else {
      SizeAppend(a[1..], b);
      assert (a + b)[1..] == a[1..] + b;
    }
  }

  lemma {:induction false} WalkSize(rooted: bool, at: seq<string>, elems: seq<string>)
    ensures Size(Walk(rooted, at, elems)) <= Size(at) + Size(elems)
    decreases |elems|
  {
    if elems != [] {
      var e := elems[0];
      WalkSize(rooted, Step(rooted, at, e), elems[1..]);
      SizeAppend(at, [e]);
      assert [e][1..] == [];
      if at != [] {
        SizeAppend(at[..|at| - 1], [at[|at| - 1]]);
        assert at == at[..|at| - 1] + [at[|at| - 1]];
      }
    }
  }

  lemma {:induction false} JoinSize(elems: seq<string>)
    requires elems != []
    ensures |Join(elems, "/")| + 1 == Size(elems)
    decreases |elems|
  {
    if |elems| > 1 {
      JoinSize(elems[1..]);
    }
  }

  lemma CleanShrinks(s: string)
    requires s != ""
    ensures |Clean(s)| <= |s|
  {
    var p := Parse(s);
    var es := Elements(s);
    SegmentsJoin(s, "/");
    JoinSize(es);
    if p.rooted {
      ElementsOf("");
      ElementsAppend("", s[1..]);
      assert "" + "/" + s[1..] == s;
      assert es == [""] + Elements(s[1..]) && es[1..] == Elements(s[1..]);
      WalkSize(true, [], es[1..]);
    } else {
      WalkSize(false, [], es);
    }
    if p.elems != [] {
      JoinSize(p.elems);
    }
  }
}
