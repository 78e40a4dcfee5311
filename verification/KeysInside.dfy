/**
 A key that is made inside another key's directory is an entry of it.  Encrypt takes the
 greatest entry for a version, and so is refused for the outer key while its versions are live.
 */
module KeysInside {
  import opened Wrappers
  import opened Bytes
  import opened Strings
  import opened Decimal
  import opened Paths
  import opened PathIds
  import opened FileTree
  import opened KeyManager
  import opened KeyPaths
  import opened KeyRotation
  import opened KeyOrder

  /** An entry that is greater than every live version keeps Encrypt from all of them. */
  lemma GreaterEntryStops(root: string, t: Tree<File>, clock: nat, keyID: string, dir: Path, live: set<nat>, e: string,
                          version: string, key: bytes)
    requires WellNamed(t, clock) && AreLive(t, dir, live)
    requires e in Entries(t, dir) && e != "metadata" && forall n <- live :: Less(Format(n), e)
    ensures !Encrypts(root, t, keyID, dir, version, key)
  {
    if Encrypts(root, t, keyID, dir, version, key) {
      var n := EncryptsFromFile(root, t, clock, keyID, dir, version, key);
      assert n in live && Less(version, e);
      UsesLatest(root, t, keyID, dir, version, key);
      LessTotal(version, e);
    }
  }

  /** Every name that starts with a letter is greater than every version. */
  lemma LetterIsGreater(n: nat, e: string)
    requires e != "" && e[0] > '9'
    ensures Less(Format(n), e)
  {
    assert Format(n)[0] <= '9';
  }

  /** So making a key whose name starts with a letter inside a key's directory stops Encrypt for the outer key. */
  lemma KeyInsideStops(root: string, t: Tree<File>, clock: nat, parent: string, name: string, kind: Kind, dir: Path,
                       e: string, keyID: string, live: set<nat>, version: string, key: bytes)
    requires WellNamed(t, clock) && CreateKey(root, t, parent, name, kind).0.Ok?
    requires Parse(Resolve(root, [parent, name]).value) == Child(dir, e) && e != "metadata" && e != "" && e[0] > '9'
    requires AreLive(CreateKey(root, t, parent, name, kind).1, dir, live)
    ensures !Encrypts(root, CreateKey(root, t, parent, name, kind).1, keyID, dir, version, key)
  {
    var t' := CreateKey(root, t, parent, name, kind).1;
    NextWellNamed(root, t, clock, MakeKey(parent, name, kind));
    DirectoryMade(root, t, parent, name, kind);
    EntriesAreChildren(t', dir, e);
    GreaterThanAll(root, t', clock, keyID, dir, live, e, version, key);
  }

  lemma GreaterThanAll(root: string, t: Tree<File>, clock: nat, keyID: string, dir: Path, live: set<nat>, e: string,
                       version: string, key: bytes)
    requires WellNamed(t, clock) && AreLive(t, dir, live)
    requires e in Entries(t, dir) && e != "metadata" && e != "" && e[0] > '9'
    ensures !Encrypts(root, t, keyID, dir, version, key)
  {
    forall n | n in live
      ensures Less(Format(n), e)
    {
      LetterIsGreater(n, e);
    }
    GreaterEntryStops(root, t, clock, keyID, dir, live, e, version, key);
  }

  // ---- A run that ends like that -----------------------------------------------------------------

  lemma KeyWritten(root: string, t: Tree<File>, parent: string, name: string, kind: Kind, dir: Path)
    requires Resolve(root, [parent, name]) == Ok(Show(dir)) && Canonical(dir) && Ancestors(dir) * t.files.Keys == {}
    requires Child(dir, "metadata") !in t.files && Child(dir, "metadata") !in t.dirs + Ancestors(dir)
    ensures CreateKey(root, t, parent, name, kind).0.Ok?
    ensures CreateKey(root, t, parent, name, kind).1
            == Tree(t.files[Child(dir, "metadata") := Metadata(kind)], t.dirs + Ancestors(dir))
  {
    ParseShow(dir);
    ShownNotEmpty(dir);
    MetadataNormal();
    JoinedChild(Show(dir), "metadata");
    JoinLeads(Show(dir), "metadata");
    ShownNotEmpty(Child(dir, "metadata"));
    ChildParts(dir, "metadata");
    assert dir.elems[..|dir.elems|] == dir.elems;
    assert dir in Ancestors(dir);
  }

  function Outer(): Path {
    Path(true, ["d"])
  }

  function Empty(): Tree<File> {
    Tree(map[], {Path(true, []), Outer()})
  }

  function WithKey(): Tree<File> {
    Tree(map[Child(Outer(), "metadata") := Metadata(Encryption)], {Path(true, []), Outer()})
  }

  function WithVersion(now: nat, material: bytes): Tree<File> {
    Tree(map[Child(Outer(), "metadata") := Metadata(Encryption), Child(Outer(), Format(now)) := Dek(material)],
         {Path(true, []), Outer()})
  }

  lemma OuterAncestors()
    ensures Ancestors(Outer()) == {Path(true, []), Outer()}
  {
    assert ["d"][..0] == [] && ["d"][..1] == ["d"];
  }

  lemma OuterLeads()
    ensures Canonical(Outer()) && KeyDir("/d", "") == Outer() && Joined("/d", "") == Outer()
    ensures Resolve("/d", [""]) == Ok(Show(Outer())) && Resolve("/d", ["", ""]) == Ok(Show(Outer()))
  {
    RootParsed();
    EmptyIsDot();
    JoinedEmpty("/d");
    assert Walk(true, ["d"], []) == ["d"];
    ResolveOne("/d", "");
    ResolveTwo("/d", "", "");
  }

  lemma FirstCall()
    ensures Next("/d", Empty(), MakeKey("", "", Encryption)) == WithKey()
  {
    OuterLeads();
    OuterAncestors();
    ChildParts(Outer(), "metadata");
    KeyWritten("/d", Empty(), "", "", Encryption, Outer());
    assert Empty().dirs + Ancestors(Outer()) == WithKey().dirs;
  }

  lemma OuterMetadata()
    ensures MetadataFor("/d", WithKey(), "") == Ok(Encryption)
  {
    OuterLeads();
    MetadataNormal();
    ResolveChild("/d", "", "metadata");
    MetadataFound("/d", WithKey(), "", Child(Outer(), "metadata"), Encryption);
  }

  lemma SecondCall(now: nat, material: bytes)
    ensures Next("/d", WithKey(), MakeVersion("", now, material)) == WithVersion(now, material)
  {
    OuterLeads();
    OuterMetadata();
    MakeVersionWrites("/d", WithKey(), "", now, material);
    VersionTaken(now, Dek(material));
  }

  lemma VersionTaken(now: nat, f: File)
    ensures WriteFile(WithKey(), VersionPath("/d", "", now), f).Some?
  {
    var v := Child(Outer(), Format(now));
    OuterLeads();
    VersionPathLeads("/d", "", now);
    ChildParts(Outer(), Format(now));
    ShownNotEmpty(v);
    assert |v.elems| == 2;
  }

  function Inner(): Path {
    Path(true, ["d", "z"])
  }

  lemma InnerLeads()
    ensures Canonical(Inner()) && Resolve("/d", ["", "z"]) == Ok(Show(Inner())) && Inner() == Child(Outer(), "z")
  {
    OuterLeads();
    RootParsed();
    EmptyIsDot();
    JoinedChild("", "z");
    UnderChild("/d", Path(false, []), "z");
    assert Walk(true, ["d"], []) == ["d"];
    assert ["d"] + ["z"] == ["d", "z"];
    ResolveTwo("/d", "", "z");
    assert Inner().elems[..1] == ["d"] && Inner().elems[1..] == ["z"];
  }

  lemma InnerFree(now: nat, material: bytes)
    ensures Ancestors(Inner()) * WithVersion(now, material).files.Keys == {}
    ensures Child(Inner(), "metadata") !in WithVersion(now, material).files
    ensures Child(Inner(), "metadata") !in WithVersion(now, material).dirs + Ancestors(Inner())
  {
    var m, v := Child(Outer(), "metadata"), Child(Outer(), Format(now));
    FormatNormal(now);
    assert m.elems[1] == "metadata" && v.elems[1] == Format(now) && Format(now)[0] <= '9';
    forall p | p in Ancestors(Inner())
      ensures p != m && p != v && |p.elems| <= 2
    {
      assert |p.elems| == 2 ==> p.elems[1] == "z";
      assert "z"[0] > '9' && "metadata"[0] != "z"[0];
    }
  }

  lemma ThirdCall(now: nat, material: bytes)
    ensures CreateKey("/d", WithVersion(now, material), "", "z", Encryption).0.Ok?
    ensures Next("/d", WithVersion(now, material), MakeKey("", "z", Encryption)).files
            == WithVersion(now, material).files[Child(Inner(), "metadata") := Metadata(Encryption)]
  {
    InnerLeads();
    InnerFree(now, material);
    KeyWritten("/d", WithVersion(now, material), "", "z", Encryption, Inner());
  }

  lemma OuterLive(now: nat, t: Tree<File>, material: bytes)
    requires t.files == WithVersion(now, material).files[Child(Inner(), "metadata") := Metadata(Encryption)]
    ensures AreLive(t, Outer(), {now}) && FileAt(t, Child(Outer(), Format(now))) == Some(Dek(material))
  {
    ChildParts(Outer(), "metadata");
    assert |Child(Inner(), "metadata").elems| == 3;
    forall n: nat
      ensures Child(Outer(), Format(n)) in t.files <==> n == now
    {
      FormatNormal(n);
      ChildParts(Outer(), Format(n));
      SameChild(Outer(), n, Outer(), now);
    }
  }

  lemma VersionNamed(now: nat, material: bytes)
    ensures WellNamed(WithVersion(now, material), now)
  {
    var t, m, v := WithVersion(now, material), Child(Outer(), "metadata"), Child(Outer(), Format(now));
    MetadataNormal();
    FormatNormal(now);
    ChildParts(Outer(), "metadata");
    ChildParts(Outer(), Format(now));
    assert IsVersion(Last(v), now);
    assert Canonical(m) && Canonical(v) && t.files[m].Metadata? && !t.files[v].Metadata?;
    assert forall p <- t.files :: p == m || p == v;
  }

  /**
   A key is made, then a version of it, then a key "z" inside it: the version is there, an
   encryption key, and Encrypt is refused.
   */
  lemma RefusedWhileLive(now: nat, material: bytes, dir: Path, version: string, key: bytes)
    ensures var calls := [MakeKey("", "", Encryption), MakeVersion("", now, material), MakeKey("", "z", Encryption)];
            var t := Run("/d", Empty(), calls);
            && AreLive(t, KeyDir("/d", ""), {now})
            && FileAt(t, Child(KeyDir("/d", ""), Format(now))) == Some(Dek(material))
            && !Encrypts("/d", t, "", dir, version, key)
  {
    var t2 := WithVersion(now, material);
    var t := Next("/d", t2, MakeKey("", "z", Encryption));
    FirstCall();
    SecondCall(now, material);
    ThirdCall(now, material);
    ThreeCalls("/d", Empty(), MakeKey("", "", Encryption), MakeVersion("", now, material),
               MakeKey("", "z", Encryption));
    OuterLive(now, t, material);
    OuterLeads();
    VersionNamed(now, material);
    InnerLeads();
    ParseShow(Inner());
    KeyInsideStops("/d", t2, now, "", "z", Encryption, Outer(), "z", "", {now}, version, key);
    OtherDirectory("/d", t, "", dir, version, key);
  }

  lemma ThreeCalls(root: string, t: Tree<File>, a: Op, b: Op, c: Op)
    ensures Run(root, t, [a, b, c]) == Next(root, Next(root, Next(root, t, a), b), c)
  {
    var t1, t2 := Next(root, t, a), Next(root, Next(root, t, a), b);
    assert [a, b, c][1..] == [b, c] && [b, c][1..] == [c] && [c][1..] == [];
    assert Run(root, t2, [c]) == Run(root, Next(root, t2, c), []);
    assert Run(root, t1, [b, c]) == Run(root, t2, [c]);
  }

  /** Encrypt looks in no other directory than that of its key. */
  lemma OtherDirectory(root: string, t: Tree<File>, keyID: string, dir: Path, version: string, key: bytes)
    ensures Encrypts(root, t, keyID, dir, version, key) ==> dir == KeyDir(root, keyID)
  {
    if Encrypts(root, t, keyID, dir, version, key) {
      ResolveOne(root, keyID);
      ParseShow(KeyDir(root, keyID));
      EmptyIsDot();
    }
  }
}
