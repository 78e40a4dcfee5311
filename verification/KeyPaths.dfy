/**
 Which files the key manager's names and ids lead to: Encrypt and Decrypt build the same
 path, and an id leads back to the path it was made from.
 */
module KeyPaths {
  import opened Wrappers
  import opened Strings
  import opened Paths
  import opened PathIds
  import opened FileTree
  import opened Decimal
  import opened KeyManager
  import opened Bytes

  /** The directory that a key id names. */
  function KeyDir(root: string, keyID: string): Path {
    Under(root, Parse(keyID))
  }

  lemma ResolveOne(root: string, keyID: string)
    ensures Canonical(KeyDir(root, keyID))
    ensures Resolve(root, [keyID]).Ok? <==> Within(Parse(root), KeyDir(root, keyID))
    ensures Resolve(root, [keyID]).Ok? ==>
              Resolve(root, [keyID]).value == if root == "" && keyID == "" then "" else Show(KeyDir(root, keyID))
  {
    var name := JoinPath([keyID]);
    JoinOne(keyID);
    CleanIdempotent(keyID);
    JoinedClean(root, keyID);
    JoinLeads(root, name);
    SafeJoinExactly(root, name);
  }

  lemma ResolveTwo(root: string, a: string, b: string)
    ensures Canonical(Under(root, Joined(a, b)))
    ensures Resolve(root, [a, b]).Ok? <==> Within(Parse(root), Under(root, Joined(a, b)))
    ensures Resolve(root, [a, b]).Ok? ==>
              Resolve(root, [a, b]).value
                  == if root == "" && a == "" && b == "" then "" else Show(Under(root, Joined(a, b)))
  {
    var name := JoinPath([a, b]);
    JoinTwo(a, b);
    CleanIdempotent(a + "/" + b);
    CleanIdempotent(b);
    JoinedJoin(root, a, b);
    JoinLeads(root, name);
    SafeJoinExactly(root, name);
  }

  /** A name below a key is resolved to a file in the directory that the key is resolved to. */
  lemma ResolveChild(root: string, keyID: string, e: string)
    requires Normal(e) && Resolve(root, [keyID]).Ok?
    ensures Resolve(root, [keyID, e]) == Ok(Show(Child(KeyDir(root, keyID), e)))
    ensures Canonical(Child(KeyDir(root, keyID), e))
    ensures Parse(Show(Child(KeyDir(root, keyID), e))) == Child(KeyDir(root, keyID), e)
  {
    ResolveOne(root, keyID);
    ResolveTwo(root, keyID, e);
    JoinedChild(keyID, e);
    UnderChild(root, Parse(keyID), e);
    WithinChild(Parse(root), KeyDir(root, keyID), e);
    ParseShow(Child(KeyDir(root, keyID), e));
  }

  lemma WithinChild(base: Path, p: Path, e: string)
    requires Within(base, p) && e != ".."
    ensures Within(base, Child(p, e))
  {
    assert Child(p, e).elems[|base.elems|..] == p.elems[|base.elems|..] + [e];
  }

  /** `filepath.Join(root, parent, version)`. */
  lemma VersionPathLeads(root: string, parent: string, now: nat)
    ensures VersionPath(root, parent, now) == Show(Child(Joined(root, parent), Format(now)))
    ensures Canonical(Joined(root, parent)) && Canonical(Child(Joined(root, parent), Format(now)))
    ensures Parse(VersionPath(root, parent, now)) == Child(Joined(root, parent), Format(now))
  {
    var v := Format(now);
    FormatNormal(now);
    JoinLeads(root, parent);
    ParseShow(Child(Joined(root, parent), v));
    JoinedUnder(root, parent, v);
  }

  lemma JoinedUnder(root: string, parent: string, v: string)
    requires Normal(v)
    ensures JoinPath([root, parent, v]) == Show(Child(Joined(root, parent), v))
  {
    if root == "" {
      assert [root, parent, v][1..] == [parent, v];
      JoinedChild(parent, v);
      JoinLeads(parent, v);
    } else {
      JoinThree(root, parent, v);
      ParseAppend(root, parent);
      ParseChild(root + "/" + parent, v);
    }
  }

  lemma JoinThree(a: string, b: string, c: string)
    requires a != ""
    ensures JoinPath([a, b, c]) == Clean(a + "/" + b + "/" + c)
  {
    assert [a, b, c][1..] == [b, c];
    assert Join([b, c], "/") == b + "/" + c;
    assert a + "/" + (b + "/" + c) == a + "/" + b + "/" + c;
  }

  lemma ParseChild(dir: string, e: string)
    requires dir != "" && Normal(e)
    ensures Parse(dir + "/" + e) == Child(Parse(dir), e)
  {
    ParseAppend(dir, e);
    ElementsOf(e);
    WalkDown(Parse(dir).rooted, Parse(dir).elems, [e]);
  }

  // ---- Ids round-trip -------------------------------------------------------------------

  /** The id of a path at or below the root leads back to that path. */
  lemma IdResolves(root: string, p: Path)
    requires Tidy(root) && Canonical(p) && Within(Parse(root), p)
    ensures Resolve(root, [TrimPrefix(Show(p), root)]) == Ok(Show(p))
  {
    var id := TrimPrefix(Show(p), root);
    IdLeads(root, p);
    ResolveOne(root, id);
    JoinedClean(root, id);
    ShownNotEmpty(p);
  }

  lemma ShownNotEmpty(p: Path)
    requires Canonical(p)
    ensures Show(p) != ""
  {
    ParseShow(p);
    CleanIdempotent(Show(p));
  }

  lemma CreatedResolved(root: string, t: Tree<File>, parent: string, name: string, kind: Kind)
    requires CreateKey(root, t, parent, name, kind).0.Ok?
    ensures Resolve(root, [parent, name]).Ok? && Resolve(root, [parent, name]).value != ""
    ensures CreateKey(root, t, parent, name, kind).0.value == TrimPrefix(Resolve(root, [parent, name]).value, root)
  {
  }

  /** For a root that is empty, or cleaned and not ".", the id of a key leads back to the directory that was made. */
  lemma KeyIdRoundTrips(root: string, t: Tree<File>, parent: string, name: string, kind: Kind)
    requires Tidy(root) && CreateKey(root, t, parent, name, kind).0.Ok?
    ensures Resolve(root, [parent, name]).Ok?
    ensures Resolve(root, [CreateKey(root, t, parent, name, kind).0.value]) == Resolve(root, [parent, name])
  {
    CreatedResolved(root, t, parent, name, kind);
    ResolveTwo(root, parent, name);
    IdResolves(root, Under(root, Joined(parent, name)));
  }

  /**
   Whatever a key id names, it names for every call: versions are made in the directory that
   Encrypt, Decrypt and SigningKeyVersions look in, and it is the one that was made.
   */
  lemma IdMeansOneDirectory(root: string, t: Tree<File>, parent: string, name: string, kind: Kind)
    requires Tidy(root) && CreateKey(root, t, parent, name, kind).0.Ok?
    ensures var id := CreateKey(root, t, parent, name, kind).0.value;
            var dir := Parse(Resolve(root, [parent, name]).value);
            && Resolve(root, [id]).Ok? && dir == KeyDir(root, id) == Joined(root, id) == Parse(JoinPath([root, id]))
            && dir in CreateKey(root, t, parent, name, kind).1.dirs
  {
    var id := CreateKey(root, t, parent, name, kind).0.value;
    CreatedResolved(root, t, parent, name, kind);
    KeyIdRoundTrips(root, t, parent, name, kind);
    ResolveTwo(root, parent, name);
    var p := Under(root, Joined(parent, name));
    ParseShow(p);
    IdLeads(root, p);
    JoinedClean(root, id);
    JoinLeads(root, id);
    DirectoryMade(root, t, parent, name, kind);
  }

  lemma DirectoryMade(root: string, t: Tree<File>, parent: string, name: string, kind: Kind)
    requires CreateKey(root, t, parent, name, kind).0.Ok?
    ensures Resolve(root, [parent, name]).Ok?
    ensures Parse(Resolve(root, [parent, name]).value) in CreateKey(root, t, parent, name, kind).1.dirs
  {
    CreatedCases(root, t, parent, name, kind);
    var p := Parse(Resolve(root, [parent, name]).value);
    assert p.elems[..|p.elems|] == p.elems;
    assert p in Ancestors(p);
  }

  /** A key that was made, or found, has the kind that was asked for. */
  lemma KeyHasKind(root: string, t: Tree<File>, parent: string, name: string, kind: Kind)
    requires Tidy(root) && CreateKey(root, t, parent, name, kind).0.Ok?
    ensures var made := CreateKey(root, t, parent, name, kind); MetadataFor(root, made.1, made.0.value) == Ok(kind)
  {
    var id := CreateKey(root, t, parent, name, kind).0.value;
    var pth := Resolve(root, [parent, name]).value;
    IdMeansOneDirectory(root, t, parent, name, kind);
    MetadataNormal();
    ResolveChild(root, id, "metadata");
    ShownNotEmpty(Child(KeyDir(root, id), "metadata"));
    JoinedChild(pth, "metadata");
    JoinLeads(pth, "metadata");
    CreatedMetadata(root, t, parent, name, kind);
  }

  lemma CreatedCases(root: string, t: Tree<File>, parent: string, name: string, kind: Kind)
    requires CreateKey(root, t, parent, name, kind).0.Ok?
    ensures Resolve(root, [parent, name]).Ok? && MkdirAll(t, Resolve(root, [parent, name]).value).Some?
    ensures var pth := Resolve(root, [parent, name]).value;
            var made, m := MkdirAll(t, pth).value, JoinPath([pth, "metadata"]);
            var t' := CreateKey(root, t, parent, name, kind).1;
            (t' == made && ReadFile(made, m) == Some(Metadata(kind))) || WriteFile(made, m, Metadata(kind)) == Some(t')
  {
  }

  lemma CreatedMetadata(root: string, t: Tree<File>, parent: string, name: string, kind: Kind)
    requires CreateKey(root, t, parent, name, kind).0.Ok?
    ensures Resolve(root, [parent, name]).Ok?
    ensures var m := JoinPath([Resolve(root, [parent, name]).value, "metadata"]);
            ReadFile(CreateKey(root, t, parent, name, kind).1, m) == Some(Metadata(kind))
  {
    CreatedCases(root, t, parent, name, kind);
    var pth := Resolve(root, [parent, name]).value;
    WriteThenRead(MkdirAll(t, pth).value, JoinPath([pth, "metadata"]), Metadata(kind));
  }

  /** What `CreateKeyVersion` needs and what it answers. */
  lemma CreatedVersion(root: string, t: Tree<File>, parent: string, now: nat, material: bytes)
    requires CreateVersion(root, t, parent, now, material).0.Ok?
    ensures CreateVersion(root, t, parent, now, material).0.value == TrimPrefix(VersionPath(root, parent, now), root)
    ensures Parse(VersionPath(root, parent, now)) !in t.dirs
  {
  }

  /** Under a tidy root the id of a version leads back exactly when SafeJoin accepts the parent as it stands. */
  lemma VersionIdRoundTripsExactly(root: string, t: Tree<File>, parent: string, now: nat, material: bytes)
    requires Tidy(root) && CreateVersion(root, t, parent, now, material).0.Ok?
    requires root != "" ==> Parse(root) in t.dirs
    ensures Resolve(root, [CreateVersion(root, t, parent, now, material).0.value]) == Ok(VersionPath(root, parent, now))
            <==> SafeJoin(root, parent).Ok?
  {
    var id := CreateVersion(root, t, parent, now, material).0.value;
    var p := Child(Joined(root, parent), Format(now));
    CreatedVersion(root, t, parent, now, material);
    VersionPathLeads(root, parent, now);
    VersionInside(root, t, parent, now);
    if Within(Parse(root), p) {
      IdResolves(root, p);
    } else if Resolve(root, [id]) == Ok(VersionPath(root, parent, now)) {
      ShownWithin(root, id, p);
    }
  }

  /** A version is written at or below the root exactly when SafeJoin accepts its parent. */
  lemma VersionInside(root: string, t: Tree<File>, parent: string, now: nat)
    requires root != "" ==> Parse(root) in t.dirs
    requires Parse(VersionPath(root, parent, now)) !in t.dirs
    ensures Within(Parse(root), Parse(VersionPath(root, parent, now))) <==> SafeJoin(root, parent).Ok?
  {
    var dir := Joined(root, parent);
    VersionPathLeads(root, parent, now);
    FormatNormal(now);
    SafeJoinExactly(root, parent);
    EmptyIsDot();
    if Within(Parse(root), dir) {
      WithinChild(Parse(root), dir, Format(now));
    } else if Within(Parse(root), Child(dir, Format(now))) {
      ParentWithin(Parse(root), dir, Format(now));
    }
  }

  lemma ShownWithin(root: string, id: string, p: Path)
    requires Canonical(p) && Resolve(root, [id]) == Ok(Show(p))
    ensures Within(Parse(root), p)
  {
    ResolveOne(root, id);
    ParseShow(p);
    ParseShow(KeyDir(root, id));
    ShownNotEmpty(p);
  }

  lemma ParentWithin(base: Path, p: Path, e: string)
    requires Within(base, Child(p, e))
    ensures Within(base, p) || base == Child(p, e)
  {
    if |base.elems| <= |p.elems| {
      assert Child(p, e).elems[|base.elems|..] == p.elems[|base.elems|..] + [e];
      assert p.elems[..|base.elems|] == Child(p, e).elems[..|base.elems|];
    }
  }

  // ---- Where the id of a version does not round-trip ----------------------------------------

  /** A key that is the root itself. */
  function RootKey(): Tree<File> {
    Tree(map[Path(true, ["d", "metadata"]) := Metadata(Encryption)], {Path(true, []), Path(true, ["d"])})
  }

  lemma MetadataFound(root: string, t: Tree<File>, parent: string, m: Path, kind: Kind)
    requires Resolve(root, [parent, "metadata"]) == Ok(Show(m)) && Canonical(m)
    requires m in t.files && t.files[m] == Metadata(kind)
    ensures MetadataFor(root, t, parent) == Ok(kind)
  {
    ParseShow(m);
    ShownNotEmpty(m);
  }

  lemma RootKeyResolved(m: Path)
    requires m == Path(true, ["d", "metadata"])
    ensures Resolve("/d", ["/..", "metadata"]) == Ok(Show(m)) && Canonical(m)
  {
    RootAndUp();
    ResolveTwo("/d", "/..", "metadata");
    RootKeyUnder(m);
    assert m.elems[..1] == ["d"] && m.elems[1..] == ["metadata"];
  }

  lemma MetadataNormal()
    ensures Normal("metadata")
  {
  }

  lemma RootKeyUnder(m: Path)
    requires m == Path(true, ["d", "metadata"])
    ensures Under("/d", Joined("/..", "metadata")) == m
  {
    var top := Path(true, []);
    RootAndUp();
    MetadataNormal();
    JoinedChild("/..", "metadata");
    UnderChild("/d", top, "metadata");
    assert Under("/d", top) == Path(true, ["d"]);
    assert ["d"] + ["metadata"] == m.elems;
  }

  lemma RootKeyFound()
    ensures MetadataFor("/d", RootKey(), "/..") == Ok(Encryption)
  {
    var m := Path(true, ["d", "metadata"]);
    RootKeyResolved(m);
    MetadataFound("/d", RootKey(), "/..", m, Encryption);
  }

  lemma RootKeyWritten(now: nat, f: File)
    ensures WriteFile(RootKey(), VersionPath("/d", "/..", now), f).Some?
  {
    RootAndUp();
    VersionPathLeads("/d", "/..", now);
    FormatNormal(now);
    var p := Child(Path(true, []), Format(now));
    ChildParts(Path(true, []), Format(now));
    ShownNotEmpty(p);
    assert p.elems[0] != "d" by {
      assert Format(now)[0] != "d"[0];
    }
  }

  /** A version whose id does not lead back: the cleaned parent is the root, the parent as it stands is above it. */
  lemma VersionIdAstray(now: nat, material: bytes)
    ensures CreateVersion("/d", RootKey(), "/..", now, material).0.Ok?
    ensures Resolve("/d", [CreateVersion("/d", RootKey(), "/..", now, material).0.value])
              != Ok(VersionPath("/d", "/..", now))
  {
    RootAndUp();
    RootKeyFound();
    RootKeyWritten(now, Dek(material));
    VersionIdRoundTripsExactly("/d", RootKey(), "/..", now, material);
    SafeJoinExactly("/d", "/..");
  }

  lemma RootParsed()
    ensures Parse("/d") == Path(true, ["d"]) && Clean("/d") == "/d"
  {
    assert "/" + "d" == "/d";
    ParseRooted("d");
    ElementsOf("d");
    WalkDown(true, [], ["d"]);
    assert [] + ["d"] == ["d"];
  }

  lemma UpParsed()
    ensures Parse("/..") == Path(true, []) && Elements("/..") == [""] + [".."]
  {
    assert "/" + ".." == "/..";
    ParseRooted("..");
    ElementsOf("..");
    ElementsOf("");
    ElementsAppend("", "..");
    assert "" + "/" + ".." == "/..";
    assert [".."][1..] == [];
  }

  lemma RootAndUp()
    ensures Parse("/d") == Path(true, ["d"]) && Clean("/d") == "/d"
    ensures Parse("/..") == Path(true, []) && Joined("/d", "/..") == Path(true, [])
  {
    RootParsed();
    UpParsed();
    WalkAppend(true, ["d"], [""], [".."]);
    assert [""][1..] == [] && [".."][1..] == [];
    assert Step(true, ["d"], "..") == [];
  }
}
