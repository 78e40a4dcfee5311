/**
 The two directories that `CreateKeyVersion` makes of a parent: it reads the metadata in the
 one that the cleaned parent leads to, and writes the version in the one that the parent as it
 stands leads to.  Exactly when they are one.
 */
module KeyParents {
  import opened Wrappers
  import opened Bytes
  import opened Strings
  import opened Decimal
  import opened Paths
  import opened PathIds
  import opened IdRoots
  import opened FileTree
  import opened KeyManager
  import opened KeyPaths
  import opened KeyIds
  import opened KeyRotation

  predicate HasKind(f: File, kind: Kind) {
    match kind
    case Signing => f.SigningKey?
    case Encryption => f.Dek?
  }

  // ---- Which metadata counts ---------------------------------------------------------------

  /** The metadata that `CreateKeyVersion` reads is that in the directory which the parent names as a key id. */
  lemma MetadataOfKeyDir(root: string, t: Tree<File>, parent: string)
    requires MetadataFor(root, t, parent).Ok?
    ensures FileAt(t, Child(KeyDir(root, parent), "metadata")) == Some(Metadata(MetadataFor(root, t, parent).value))
  {
    ResolveTwo(root, parent, "metadata");
    MetadataNormal();
    JoinedChild(parent, "metadata");
    UnderChild(root, Parse(parent), "metadata");
    ParseShow(Under(root, Joined(parent, "metadata")));
  }

  /** A version has the kind that this metadata says, and is written below the parent as it stands. */
  lemma VersionHasKind(root: string, t: Tree<File>, parent: string, now: nat, material: bytes) returns (kind: Kind)
    requires CreateVersion(root, t, parent, now, material).0.Ok?
    ensures FileAt(t, Child(KeyDir(root, parent), "metadata")) == Some(Metadata(kind))
    ensures FileAt(CreateVersion(root, t, parent, now, material).1, Child(Joined(root, parent), Format(now)))
            == Some(VersionFile(kind, material))
    ensures HasKind(VersionFile(kind, material), kind)
  {
    MakeVersionWrites(root, t, parent, now, material);
    MetadataOfKeyDir(root, t, parent);
    kind := MetadataFor(root, t, parent).value;
  }

  // ---- When they are one --------------------------------------------------------------------

  /** A parent that starts with a slash must not go up further than it goes down, unless the root is the top. */
  predicate Straight(root: string, parent: string) {
    || root == "" || parent == "" || parent[0] != '/'
    || Parse(root) == Path(true, []) || ".." !in Walk(false, [], Elements(parent))
  }

  /** Walking elements, or first cleaning them as a relative path, comes to the same. */
  lemma {:induction false} WalkCleaned(rooted: bool, base: seq<string>, at: seq<string>, elems: seq<string>)
    requires Canonical(Path(false, at)) && forall i :: 0 <= i < |elems| ==> NoSlash(elems[i])
    ensures Walk(rooted, base, Walk(false, at, elems)) == Walk(rooted, Walk(rooted, base, at), elems)
    decreases |elems|
  {
    if elems != [] {
      StepCanonical(false, at, elems[0]);
      StepCleaned(rooted, base, at, elems[0]);
      WalkCleaned(rooted, base, Step(false, at, elems[0]), elems[1..]);
    }
  }

  lemma StepCleaned(rooted: bool, base: seq<string>, at: seq<string>, e: string)
    requires Canonical(Path(false, at)) && NoSlash(e)
    ensures Walk(rooted, base, Step(false, at, e)) == Step(rooted, Walk(rooted, base, at), e)
  {
    if e == ".." && at != [] && at[|at| - 1] != ".." {
      var init, last := at[..|at| - 1], at[|at| - 1];
      assert Normal(last) && at == init + [last];
      WalkAppend(rooted, base, init, [last]);
      WalkDown(rooted, Walk(rooted, base, init), [last]);
      assert Walk(rooted, base, at)[..|Walk(rooted, base, init)|] == Walk(rooted, base, init);
    } else if e != "" && e != "." {
      WalkAppend(rooted, base, at, [e]);
      assert [e][1..] == [];
    }
  }

  lemma ElementsCleaned(rooted: bool, base: seq<string>, parent: string)
    ensures Walk(rooted, base, Walk(false, [], Elements(parent))) == Walk(rooted, base, Elements(parent))
    ensures Canonical(Path(false, Walk(false, [], Elements(parent))))
  {
    ElementsNoSlash(parent);
    WalkCleaned(rooted, base, [], Elements(parent));
    WalkCanonical(false, [], Elements(parent));
    assert Walk(rooted, base, []) == base;
  }

  /** From the top there is no going up. */
  lemma {:induction false} WalkTop(n: nat)
    ensures Walk(true, [], Repeat("..", n)) == []
  {
    if n > 0 {
      assert Repeat("..", n)[1..] == Repeat("..", n - 1);
      WalkTop(n - 1);
    }
  }

  /** Going up leaves a place, unless it is the top. */
  lemma UpLeaves(r: Path, n: nat)
    requires Canonical(r) && n > 0
    ensures Walk(r.rooted, r.elems, Repeat("..", n)) == r.elems <==> r == Path(true, [])
  {
    if r.rooted {
      WalkTop(n);
      if r.elems != [] {
        UpShorter(r.elems, n);
      }
    } else {
      RelativeUpLeaves(r.elems, n);
    }
  }

  lemma RelativeUpLeaves(at: seq<string>, n: nat)
    requires Canonical(Path(false, at)) && n > 0
    ensures Walk(false, at, Repeat("..", n)) != at
  {
    UpThenDown(Path(false, at));
    SplitUpLeaves(Ups(at), at[Ups(at)..], n);
  }

  lemma SplitUpLeaves(k: nat, names: seq<string>, n: nat)
    requires Downward(names) && n > 0
    ensures Walk(false, Repeat("..", k) + names, Repeat("..", n)) != Repeat("..", k) + names
  {
    WalkUps(k, names, n);
    UpElsewhere(k, names, n);
  }

  lemma UpElsewhere(k: nat, names: seq<string>, n: nat)
    requires n > 0 && Downward(names)
    ensures (if n <= |names| then Repeat("..", k) + names[..|names| - n] else Repeat("..", k + (n - |names|)))
            != Repeat("..", k) + names
  {
    var ups := Repeat("..", k);
    RepeatUp(k);
    if n <= |names| {
      assert |ups + names[..|names| - n]| < |ups + names|;
    } else {
      var further := Repeat("..", k + (n - |names|));
      RepeatUp(k + (n - |names|));
      if names == [] {
        assert |further| != |ups + names|;
      } else if |further| == |ups + names| {
        assert further[k] == ".." && (ups + names)[k] == names[0] != "..";
      }
    }
  }

  lemma {:induction false} UpShorter(at: seq<string>, n: nat)
    requires Canonical(Path(true, at)) && at != [] && n > 0
    ensures |Walk(true, at, Repeat("..", n))| < |at|
    decreases n
  {
    var fewer := at[..|at| - 1];
    assert at[|at| - 1] != "..";
    assert Repeat("..", n)[1..] == Repeat("..", n - 1);
    assert Step(true, at, "..") == fewer;
    if n > 1 && fewer != [] {
      UpShorter(fewer, n - 1);
    } else if n > 1 {
      WalkTop(n - 1);
    }
  }

  /** What is left of a relative path at the top is what it goes down. */
  lemma TopKeepsDown(w: seq<string>)
    requires Canonical(Path(false, w))
    ensures Walk(true, [], w) == w[Ups(w)..]
  {
    var ups, names := Repeat("..", Ups(w)), w[Ups(w)..];
    UpThenDown(Path(false, w));
    WalkAppend(true, [], ups, names);
    WalkTop(Ups(w));
    WalkDown(true, [], names);
    assert [] + names == names;
  }

  lemma UpsAreUps(w: seq<string>)
    requires Canonical(Path(false, w))
    ensures ".." in w <==> Ups(w) > 0
  {
    UpThenDown(Path(false, w));
    if Ups(w) > 0 {
      assert w[0] == w[..Ups(w)][0];
      RepeatUp(Ups(w));
    } else {
      assert w == w[0..];
    }
  }

  /** An absolute parent: both directories end in what it goes down, but one of them goes up first. */
  lemma AbsoluteLeads(root: string, parent: string)
    requires root != "" && parent != "" && parent[0] == '/'
    ensures var w, r := Walk(false, [], Elements(parent)), Parse(root);
            && Joined(root, parent) == Path(r.rooted, Walk(r.rooted, r.elems, Repeat("..", Ups(w))) + w[Ups(w)..])
            && KeyDir(root, parent) == Path(r.rooted, r.elems + w[Ups(w)..])
            && Canonical(Path(false, w))
  {
    var w, r := Walk(false, [], Elements(parent)), Parse(root);
    ElementsCleaned(r.rooted, r.elems, parent);
    ElementsCleaned(true, [], parent);
    TopKeepsDown(w);
    UpThenDown(Path(false, w));
    WalkAppend(r.rooted, r.elems, Repeat("..", Ups(w)), w[Ups(w)..]);
    WalkDown(r.rooted, Walk(r.rooted, r.elems, Repeat("..", Ups(w))), w[Ups(w)..]);
    WalkDown(r.rooted, r.elems, w[Ups(w)..]);
  }

  lemma Cancel(a: seq<string>, b: seq<string>, rest: seq<string>)
    ensures a + rest == b + rest <==> a == b
  {
    if a + rest == b + rest {
      assert |a| == |b|;
      assert a == (a + rest)[..|a|] == (b + rest)[..|b|] == b;
    }
  }

  /** The version is written beside the metadata that was read exactly when the parent is straight. */
  lemma StraightExactly(root: string, parent: string)
    ensures Joined(root, parent) == KeyDir(root, parent) <==> Straight(root, parent)
  {
    var r := Parse(root);
    if root != "" {
      ParseCanonical(root);
      if parent == "" || parent[0] != '/' {
        ElementsCleaned(r.rooted, r.elems, parent);
      } else {
        var w := Walk(false, [], Elements(parent));
        AbsoluteLeads(root, parent);
        UpsAreUps(w);
        Cancel(Walk(r.rooted, r.elems, Repeat("..", Ups(w))), r.elems, w[Ups(w)..]);
        if Ups(w) > 0 {
          UpLeaves(r, Ups(w));
        }
      }
    }
  }

  // ---- Which kind a version gets ---------------------------------------------------------------

  /** Whatever is in the tree, a version made under this parent has the kind of the metadata beside it. */
  ghost predicate KindIsBeside(root: string, parent: string) {
    forall t: Tree<File>, now: nat, material: bytes | CreateVersion(root, t, parent, now, material).0.Ok? ::
      MadeOfKind(t, CreateVersion(root, t, parent, now, material).1, Joined(root, parent), now)
  }

  /** The version that is in `dir` now has the kind of the metadata that was there. */
  ghost predicate MadeOfKind(t: Tree<File>, t': Tree<File>, dir: Path, now: nat) {
    exists kind :: FileAt(t, Child(dir, "metadata")) == Some(Metadata(kind))
                   && FileAt(t', Child(dir, Format(now))).Some?
                   && HasKind(FileAt(t', Child(dir, Format(now))).value, kind)
  }

  /** Two keys of different kinds. */
  function TwoKeys(signing: Path, encryption: Path): Tree<File> {
    Tree(map[Child(signing, "metadata") := Metadata(Signing), Child(encryption, "metadata") := Metadata(Encryption)],
         {signing})
  }

  lemma OtherKindMade(root: string, parent: string)
    requires Joined(root, parent) != KeyDir(root, parent) && Resolve(root, [parent, "metadata"]).Ok?
    ensures var t := TwoKeys(Joined(root, parent), KeyDir(root, parent));
            && CreateVersion(root, t, parent, 0, []).0.Ok?
            && !MadeOfKind(t, CreateVersion(root, t, parent, 0, []).1, Joined(root, parent), 0)
  {
    var dir, other := Joined(root, parent), KeyDir(root, parent);
    var t := TwoKeys(dir, other);
    ChildParts(dir, "metadata");
    ChildParts(other, "metadata");
    MetadataResolved(root, parent);
    MetadataFound(root, t, parent, Child(other, "metadata"), Encryption);
    VersionFits(root, t, parent, 0);
    MakeVersionWrites(root, t, parent, 0, []);
  }

  lemma MetadataResolved(root: string, parent: string)
    requires Resolve(root, [parent, "metadata"]).Ok?
    ensures Canonical(Child(KeyDir(root, parent), "metadata"))
    ensures Resolve(root, [parent, "metadata"]) == Ok(Show(Child(KeyDir(root, parent), "metadata")))
    ensures Within(Parse(root), Child(KeyDir(root, parent), "metadata"))
  {
    ResolveTwo(root, parent, "metadata");
    MetadataNormal();
    JoinedChild(parent, "metadata");
    UnderChild(root, Parse(parent), "metadata");
  }

  lemma VersionFits(root: string, t: Tree<File>, parent: string, now: nat)
    requires t.dirs == {Joined(root, parent)}
    ensures forall f: File :: WriteFile(t, VersionPath(root, parent, now), f).Some?
  {
    VersionPathLeads(root, parent, now);
    ChildParts(Joined(root, parent), Format(now));
    ShownNotEmpty(Child(Joined(root, parent), Format(now)));
  }

  /**
   Versions always have the kind of the metadata beside them exactly when the parent is straight,
   or is no key that SafeJoin would accept.
   */
  lemma KindIsBesideExactly(root: string, parent: string)
    ensures KindIsBeside(root, parent) <==> Straight(root, parent) || Resolve(root, [parent, "metadata"]).Err?
  {
    StraightExactly(root, parent);
    if Straight(root, parent) || Resolve(root, [parent, "metadata"]).Err? {
      forall t: Tree<File>, now: nat, material: bytes | CreateVersion(root, t, parent, now, material).0.Ok?
        ensures MadeOfKind(t, CreateVersion(root, t, parent, now, material).1, Joined(root, parent), now)
      {
        var kind := VersionHasKind(root, t, parent, now, material);
      }
    } else {
      OtherKindMade(root, parent);
    }
  }

  // ---- Ids as parents --------------------------------------------------------------------------

  lemma {:induction false} WalkLength(rooted: bool, at: seq<string>, elems: seq<string>)
    ensures |Walk(rooted, at, elems)| <= |at| + |elems|
    decreases |elems|
  {
    if elems != [] {
      WalkLength(rooted, Step(rooted, at, elems[0]), elems[1..]);
    }
  }

  /** Where nothing goes up nothing is left that does. */
  lemma {:induction false} NoUpsLeft(at: seq<string>, elems: seq<string>)
    requires ".." !in at && ".." !in elems
    ensures ".." !in Walk(false, at, elems)
    decreases |elems|
  {
    if elems != [] {
      assert elems[0] in elems;
      assert forall e :: e in Step(false, at, elems[0]) ==> e in at || e == elems[0];
      NoUpsLeft(Step(false, at, elems[0]), elems[1..]);
    }
  }

  lemma ElementsShown(p: Path)
    requires Canonical(p) && p.elems != []
    ensures Elements(Show(p)) == (if p.rooted then [""] else []) + p.elems
  {
    ElementsOfJoin(p.elems);
    if p.rooted {
      ElementsAppend("", Join(p.elems, "/"));
      ElementsOf("");
      assert "" + "/" + Join(p.elems, "/") == Show(p);
    } else {
      assert [] + p.elems == p.elems;
    }
  }

  /** What is left of a path below the root, from a slash on, does not go up. */
  lemma TrimmedNoUps(root: string, p: Path, id: string)
    requires root != "" && Canonical(p) && Within(Parse(root), p) && p.elems != []
    requires id == TrimPrefix(Show(p), root) && id != "" && id[0] == '/'
    ensures ".." !in Elements(id)
  {
    var r := Parse(root);
    ElementsShown(p);
    if root <= Show(p) {
      var x := id[1..];
      assert Show(p) == root + "/" + x && id == "" + "/" + x;
      ElementsAppend(root, x);
      ElementsAppend("", x);
      ElementsOf("");
      WalkLength(r.rooted, [], Elements(root));
      TailNoUps(r, p, Elements(root), Elements(x));
    } else {
      assert p.rooted;
    }
  }

  lemma TailNoUps(r: Path, p: Path, front: seq<string>, tail: seq<string>)
    requires Canonical(p) && Within(r, p) && |r.elems| <= |front|
    requires front + tail == (if p.rooted then [""] else []) + p.elems
    ensures ".." !in tail
  {
    forall i | 0 <= i < |tail|
      ensures tail[i] != ".."
    {
      assert tail[i] == (front + tail)[|front| + i];
      if p.rooted {
        var shown := [""] + p.elems;
        assert tail[i] == shown[|front| + i];
      } else {
        assert [] + p.elems == p.elems;
        assert tail[i] == p.elems[|r.elems|..][|front| + i - |r.elems|];
      }
    }
  }

  /** Every id that createKey hands out is a straight parent, whatever the root. */
  lemma IdIsStraight(root: string, t: Tree<File>, parent: string, name: string, kind: Kind)
    requires CreateKey(root, t, parent, name, kind).0.Ok?
    ensures Straight(root, CreateKey(root, t, parent, name, kind).0.value)
  {
    var id := CreateKey(root, t, parent, name, kind).0.value;
    CreatedResolved(root, t, parent, name, kind);
    ResolveTwo(root, parent, name);
    if root != "" && id != "" && id[0] == '/' {
      var p := Under(root, Joined(parent, name));
      if p.elems == [] {
        TopId(root, p, id);
      } else {
        TrimmedNoUps(root, p, id);
      }
      NoUpsLeft([], Elements(id));
    }
  }

  lemma TopId(root: string, p: Path, id: string)
    requires root != "" && p.elems == [] && id == TrimPrefix(Show(p), root) && id != "" && id[0] == '/'
    ensures ".." !in Elements(id)
  {
    assert id == "/" && "" + "/" + "" == "/";
    ElementsAppend("", "");
    ElementsOf("");
  }

  /** Under a straight parent the id of a version leads back exactly when the root fits. */
  lemma StraightIdReturnsExactly(root: string, t: Tree<File>, parent: string, now: nat, material: bytes)
    requires Straight(root, parent) && CreateVersion(root, t, parent, now, material).0.Ok?
    requires root != "" ==> Parse(root) in t.dirs && Parse(root) !in t.files
    ensures SafeJoin(root, parent).Ok?
    ensures Resolve(root, [CreateVersion(root, t, parent, now, material).0.value]) == Ok(VersionPath(root, parent, now))
            <==> IdFits(root, VersionPath(root, parent, now))
  {
    var dir := KeyDir(root, parent);
    StraightExactly(root, parent);
    MakeVersionWrites(root, t, parent, now, material);
    MetadataOfKeyDir(root, t, parent);
    MetadataResolved(root, parent);
    ParentWithin(Parse(root), dir, "metadata");
    EmptyIsDot();
    SafeJoinExactly(root, parent);
    VersionIdReturnsExactly(root, t, parent, now, material);
  }
}
