/**
 Lexical paths, as path/filepath reads them on Unix: a string is cut at its slashes and
 its elements are walked from the left, an empty element or "." staying, ".." going up.
 A `Path` is what is left of a string when that is done.
 */
module Paths {
  import opened Wrappers
  import opened Strings

  datatype Path = Path(rooted: bool, elems: seq<string>)

  predicate NoSlash(e: string) {
    forall i :: 0 <= i < |e| ==> e[i] != '/'
  }

  /** An element that goes one level down. */
  predicate Normal(e: string) {
    e != "" && e != "." && e != ".." && NoSlash(e)
  }

  /** One element of a walk. */
  function Step(rooted: bool, at: seq<string>, e: string): seq<string> {
    if e == "" || e == "." then at
    else if e == ".." then
      if at != [] && at[|at| - 1] != ".." then at[..|at| - 1]
      else if rooted then at
      else at + [".."]
    else at + [e]
  }

  function Walk(rooted: bool, at: seq<string>, elems: seq<string>): seq<string>
    decreases |elems|
  {
    if elems == [] then at else Walk(rooted, Step(rooted, at, elems[0]), elems[1..])
  }

  function Elements(s: string): seq<string> {
    Segments(s, "/")
  }

  function Parse(s: string): Path {
    var rooted := s != "" && s[0] == '/';
    Path(rooted, Walk(rooted, [], Elements(s)))
  }

  function Show(p: Path): string {
    if p.rooted then "/" + Join(p.elems, "/")
    else if p.elems == [] then "."
    else Join(p.elems, "/")
  }

  /** `filepath.Clean`. */
  function Clean(s: string): string {
    Show(Parse(s))
  }

  /** `filepath.Join`: leading empty parts are dropped, and nothing at all stays nothing. */
  function JoinPath(parts: seq<string>): string {
    if parts == [] then ""
    else if parts[0] == "" then JoinPath(parts[1..])
    else Clean(Join(parts, "/"))
  }

  function Repeat(e: string, n: nat): seq<string> {
    if n == 0 then [] else [e] + Repeat(e, n - 1)
  }

  /** How many elements two walks have in common at the front. */
  function Common(a: seq<string>, b: seq<string>): (n: nat)
    ensures n <= |a| && n <= |b| && a[..n] == b[..n]
    ensures n == |a| || n == |b| || a[n] != b[n]
  {
    if a == [] || b == [] || a[0] != b[0] then 0 else 1 + Common(a[1..], b[1..])
  }

  /**
   `filepath.Rel`; None is its error. (Of a target "." below the base Go's result has a
   trailing "/." more; only the first element of a result is ever looked at.)
   */
  function Rel(base: string, target: string): Option<string> {
    Between(Parse(base), Parse(target))
  }

  function Between(b: Path, t: Path): Option<string> {
    if b == t then Some(".")
    else if b.rooted != t.rooted then None
    else
      var n := Common(b.elems, t.elems);
      if n < |b.elems| && b.elems[n] == ".." then None
      else Some(Join(Repeat("..", |b.elems| - n) + t.elems[n..], "/"))
  }

  predicate GoesUp(rel: string) {
    rel == ".." || "../" <= rel
  }

  datatype PathError = Unrelated | Escapes

  /** `util.SafeJoin`. */
  function SafeJoin(root: string, name: string): Result<string, PathError> {
    var joined := JoinPath([root, name]);
    match Rel(if root == "" then "." else root, joined)
    case None => Err(Unrelated)
    case Some(rel) => if GoesUp(rel) then Err(Escapes) else Ok(joined)
  }

  // ---- Walks end in canonical paths -----------------------------------------------------

  /** ".." only in front, and only where there is no root to stop at. */
  predicate Canonical(p: Path) {
    && (forall i :: 0 <= i < |p.elems| ==> Normal(p.elems[i]) || p.elems[i] == "..")
    && (forall i :: 0 <= i < |p.elems| && p.elems[i] == ".." ==>
          !p.rooted && forall j :: 0 <= j < i ==> p.elems[j] == "..")
  }

  lemma StepCanonical(rooted: bool, at: seq<string>, e: string)
    requires Canonical(Path(rooted, at)) && NoSlash(e)
    ensures Canonical(Path(rooted, Step(rooted, at, e)))
  {
    if e == ".." && (at == [] || at[|at| - 1] == "..") && !rooted {
      assert forall i :: 0 <= i < |at| ==> at[i] == "..";
    }
  }

  lemma {:induction false} WalkCanonical(rooted: bool, at: seq<string>, elems: seq<string>)
    requires Canonical(Path(rooted, at)) && forall i :: 0 <= i < |elems| ==> NoSlash(elems[i])
    ensures Canonical(Path(rooted, Walk(rooted, at, elems)))
    decreases |elems|
  {
    if elems != [] {
      StepCanonical(rooted, at, elems[0]);
      WalkCanonical(rooted, Step(rooted, at, elems[0]), elems[1..]);
    }
  }

  lemma ElementsNoSlash(s: string)
    ensures forall i :: 0 <= i < |Elements(s)| ==> NoSlash(Elements(s)[i])
  {
    SegmentsFree(s, "/");
    forall i | 0 <= i < |Elements(s)|
      ensures NoSlash(Elements(s)[i])
    {
      var e := Elements(s)[i];
      assert e in Elements(s);
      forall k | 0 <= k < |e|
        ensures e[k] != '/'
      {
        assert !At(e, "/", k);
        assert e[k + 0] == e[k];
      }
    }
  }

  lemma ParseCanonical(s: string)
    ensures Canonical(Parse(s))
  {
    ElementsNoSlash(s);
    WalkCanonical(s != "" && s[0] == '/', [], Elements(s));
  }

  // ---- Showing and parsing are inverse on canonical paths -----------------------------------

  lemma {:induction false} ElementsOf(e: string)
    requires NoSlash(e)
    ensures Elements(e) == [e]
  {
    if e != "" {
      assert e[0 + 0] != "/"[0];
      ElementsOf(e[1..]);
      assert [e[0]] + e[1..] == e;
    }
  }

  /** Cutting at a slash in between. */
  lemma {:induction false} ElementsAppend(s: string, t: string)
    ensures Elements(s + "/" + t) == Elements(s) + Elements(t)
    decreases |s|
  {
    var u := s + "/" + t;
    if s == "" {
      assert u[0 + 0] == "/"[0] && u[1..] == t;
    } else {
      assert u[0 + 0] == s[0 + 0] && u[1..] == s[1..] + "/" + t;
      ElementsAppend(s[1..], t);
    }
  }

  lemma {:induction false} ElementsOfJoin(elems: seq<string>)
    requires elems != [] && forall i :: 0 <= i < |elems| ==> NoSlash(elems[i])
    ensures Elements(Join(elems, "/")) == elems
    decreases |elems|
  {
    ElementsOf(elems[0]);
    if |elems| > 1 {
      ElementsOfJoin(elems[1..]);
      ElementsAppend(elems[0], Join(elems[1..], "/"));
      assert [elems[0]] + elems[1..] == elems;
    }
  }

  /** A canonical path is walked element by element as it stands. */
  lemma {:induction false} WalkOnCanonical(rooted: bool, at: seq<string>, elems: seq<string>)
    requires Canonical(Path(rooted, at + elems))
    ensures Walk(rooted, at, elems) == at + elems
    decreases |elems|
  {
    if elems == [] {
      assert at + elems == at;
    } else {
      assert elems[0] == (at + elems)[|at|];
      assert elems[0] == ".." && at != [] ==> at[|at| - 1] == (at + elems)[|at| - 1] == "..";
      assert at + [elems[0]] + elems[1..] == at + elems;
      WalkOnCanonical(rooted, at + [elems[0]], elems[1..]);
    }
  }

  lemma {:induction false} WalkAppend(rooted: bool, at: seq<string>, a: seq<string>, b: seq<string>)
    ensures Walk(rooted, at, a + b) == Walk(rooted, Walk(rooted, at, a), b)
    decreases |a|
  {
    if a == [] {
      assert a + b == b;
    } else {
      assert (a + b)[1..] == a[1..] + b;
      WalkAppend(rooted, Step(rooted, at, a[0]), a[1..], b);
    }
  }

  lemma ParseShow(p: Path)
    requires Canonical(p)
    ensures Parse(Show(p)) == p
  {
    if p.elems != [] {
      WalkJoined(p);
    }
    if p.rooted {
      ParseRooted(Join(p.elems, "/"));
    } else if p.elems == [] {
      ElementsOf(".");
      assert Walk(false, [], ["."]) == Walk(false, [], ["."][1..]) == [];
    } else {
      JoinStart(p.elems);
    }
  }

  lemma WalkJoined(p: Path)
    requires Canonical(p) && p.elems != []
    ensures Walk(p.rooted, [], Elements(Join(p.elems, "/"))) == p.elems
  {
    ElementsOfJoin(p.elems);
    WalkOnCanonical(p.rooted, [], p.elems);
    assert [] + p.elems == p.elems;
  }

  /** A leading slash leads to the root, and what follows is walked from there. */
  lemma ParseRooted(s: string)
    ensures Parse("/" + s) == Path(true, if s == "" then [] else Walk(true, [], Elements(s)))
  {
    ElementsAppend("", s);
    ElementsOf("");
    assert "" + "/" + s == "/" + s;
    assert ([""] + Elements(s))[1..] == Elements(s);
    if s == "" {
      assert Walk(true, [], [""]) == Walk(true, [], [""][1..]) == [];
    }
  }

  /** A joined path starts like its first element. */
  lemma JoinStart(elems: seq<string>)
    requires elems != []
    ensures elems[0] <= Join(elems, "/")
  {
  }

  lemma CleanIdempotent(s: string)
    ensures Parse(Clean(s)) == Parse(s) && Clean(Clean(s)) == Clean(s) && Clean(s) != ""
  {
    ParseCanonical(s);
    ParseShow(Parse(s));
    var p := Parse(s);
    if !p.rooted && p.elems != [] {
      JoinStart(p.elems);
      assert p.elems[0] != "";
    }
  }

  // ---- Joining ----------------------------------------------------------------------------

  /** A name joined to a root is walked from where the root ends. */
  lemma ParseAppend(root: string, name: string)
    requires root != ""
    ensures Parse(root + "/" + name)
              == Path(Parse(root).rooted, Walk(Parse(root).rooted, Parse(root).elems, Elements(name)))
  {
    ElementsAppend(root, name);
    WalkAppend(Parse(root).rooted, [], Elements(root), Elements(name));
    assert (root + "/" + name)[0] == root[0];
  }

  lemma JoinOne(s: string)
    ensures JoinPath([s]) == if s == "" then "" else Clean(s)
  {
    assert [s][1..] == [];
    assert Join([s], "/") == s;
  }

  lemma JoinTwo(a: string, b: string)
    ensures JoinPath([a, b]) == if a != "" then Clean(a + "/" + b) else if b != "" then Clean(b) else ""
  {
    assert [a, b][1..] == [b] && [b][1..] == [];
    assert Join([a, b], "/") == a + "/" + b;
    assert JoinPath([b]) == if b == "" then "" else Clean(b);
  }

  /** Where a join leads: from the root along the elements of the name. */
  function Joined(root: string, name: string): Path {
    if root != "" then Path(Parse(root).rooted, Walk(Parse(root).rooted, Parse(root).elems, Elements(name)))
    else Parse(name)
  }

  lemma JoinLeads(root: string, name: string)
    ensures Parse(JoinPath([root, name])) == Joined(root, name) && Canonical(Joined(root, name))
    ensures root != "" || name != "" ==> JoinPath([root, name]) == Show(Joined(root, name))
  {
    JoinTwo(root, name);
    if root != "" {
      ParseAppend(root, name);
      CleanIdempotent(root + "/" + name);
      ParseCanonical(root + "/" + name);
    } else if name != "" {
      CleanIdempotent(name);
      ParseCanonical(name);
    } else {
      ParseCanonical("");
    }
  }

  // ---- SafeJoin ---------------------------------------------------------------------------

  /** `p` lies lexically at or below `base`: the base, and then only steps down. */
  predicate Within(base: Path, p: Path) {
    && p.rooted == base.rooted
    && base.elems <= p.elems
    && ".." !in p.elems[|base.elems|..]
  }

  lemma UpElements(s: string)
    requires GoesUp(s)
    ensures Elements(s) != [] && Elements(s)[0] == ".."
  {
    ElementsOf("..");
    if s != ".." {
      var rest := s[3..];
      assert s[..3] == "../" && s == s[..3] + rest;
      assert ".." + "/" == "../";
      ElementsAppend("..", rest);
    }
  }

  lemma JoinUp(elems: seq<string>)
    requires elems != [] && elems[0] == ".."
    ensures GoesUp(Join(elems, "/"))
  {
    if |elems| > 1 {
      var rest := Join(elems[1..], "/");
      assert ".." + "/" == "../";
      assert Join(elems, "/") == "../" + rest;
    }
  }

  /** A relative path starts with ".." as a string exactly when its first element is "..". */
  lemma FirstElement(elems: seq<string>)
    requires elems != [] && forall i :: 0 <= i < |elems| ==> NoSlash(elems[i])
    ensures GoesUp(Join(elems, "/")) <==> elems[0] == ".."
  {
    if elems[0] == ".." {
      JoinUp(elems);
    } else if GoesUp(Join(elems, "/")) {
      ElementsOfJoin(elems);
      UpElements(Join(elems, "/"));
    }
  }

  /**
   SafeJoin accepts exactly when the joined path lies lexically at or below the root, and then
   the result is the cleaned root followed by elements none of which is "..".  An empty root
   means the working directory; only there an empty name yields the empty string.
   */
  lemma SafeJoinExactly(root: string, name: string)
    ensures SafeJoin(root, name).Ok? <==> Within(Parse(root), Joined(root, name))
    ensures SafeJoin(root, name).Ok? ==>
              && SafeJoin(root, name).value == (if root == "" && name == "" then "" else Show(Joined(root, name)))
              && Joined(root, name).elems == Parse(root).elems + Joined(root, name).elems[|Parse(root).elems|..]
              && (forall e <- Joined(root, name).elems[|Parse(root).elems|..] :: Normal(e))
  {
    JoinLeads(root, name);
    JoinTwo(root, name);
    ParseCanonical(root);
    EmptyIsDot();
    BetweenDecides(Parse(root), Joined(root, name));
    WithinNormal(Parse(root), Joined(root, name));
  }

  lemma EmptyIsDot()
    ensures Parse(".") == Parse("") == Path(false, [])
  {
    ElementsOf(".");
    ElementsOf("");
  }

  lemma WithinNormal(b: Path, t: Path)
    requires Canonical(t)
    ensures Within(b, t) ==> t.elems == b.elems + t.elems[|b.elems|..] && forall e <- t.elems[|b.elems|..] :: Normal(e)
  {
    if Within(b, t) {
      forall e | e in t.elems[|b.elems|..]
        ensures Normal(e)
      {
        var i :| 0 <= i < |t.elems[|b.elems|..]| && e == t.elems[|b.elems|..][i];
        assert e == t.elems[|b.elems| + i];
      }
    }
  }

  /** Whether a relative path exists and goes up tells whether the target is within the base. */
  lemma BetweenDecides(b: Path, t: Path)
    requires Canonical(b) && Canonical(t)
    ensures Within(b, t) <==> Between(b, t).Some? && !GoesUp(Between(b, t).value)
  {
    if b.rooted == t.rooted && b != t {
      var n := Common(b.elems, t.elems);
      if n < |b.elems| {
        UpFirst(b, t, n);
      } else {
        assert t.elems[..n] == b.elems && t.elems[..|t.elems|] == t.elems;
        DownOnly(b, t, n);
      }
    }
  }

  lemma DownOnly(b: Path, t: Path, n: nat)
    requires Canonical(t) && n == |b.elems| < |t.elems|
    ensures GoesUp(Join(Repeat("..", |b.elems| - n) + t.elems[n..], "/")) <==> ".." in t.elems[n..]
  {
    var rest := t.elems[n..];
    assert Repeat("..", 0) + rest == rest;
    assert forall i :: 0 <= i < |rest| ==> rest[i] == t.elems[n + i];
    FirstElement(rest);
    DownAllTheWay(t, n);
  }

  /** A target that leaves the base before its end is reached by going up. */
  lemma UpFirst(b: Path, t: Path, n: nat)
    requires Canonical(b) && Canonical(t) && n == Common(b.elems, t.elems) < |b.elems|
    ensures GoesUp(Join(Repeat("..", |b.elems| - n) + t.elems[n..], "/")) && !(b.elems <= t.elems)
  {
    var all := Repeat("..", |b.elems| - n) + t.elems[n..];
    RepeatUp(|b.elems| - n);
    assert all[0] == "..";
    JoinUp(all);
  }

  lemma {:induction false} RepeatUp(n: nat)
    ensures |Repeat("..", n)| == n && forall i :: 0 <= i < n ==> Repeat("..", n)[i] == ".."
  {
    if n > 0 {
      RepeatUp(n - 1);
    }
  }

  /** In a canonical path nothing goes up after something went down. */
  lemma DownAllTheWay(t: Path, n: nat)
    requires Canonical(t) && n < |t.elems|
    ensures t.elems[n] != ".." <==> ".." !in t.elems[n..]
  {
    if ".." in t.elems[n..] {
      var i :| 0 <= i < |t.elems[n..]| && t.elems[n..][i] == "..";
      assert t.elems[n + i] == "..";
    }
    assert t.elems[n] == t.elems[n..][0];
  }
}
