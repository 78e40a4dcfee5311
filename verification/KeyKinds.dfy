/**
 What kind the versions of a key have: that of the metadata they were made under.  So an
 encryption key encrypts as long as it has a version, and a signing key lists its versions.
 */
module KeyKinds {
  import opened Wrappers
  import opened Bytes
  import opened Decimal
  import opened Paths
  import opened PathIds
  import opened FileTree
  import opened KeyManager
  import opened KeyPaths
  import opened KeyParents
  import opened KeyRotation
  import opened KeyOrder

  // ---- Whole runs ----------------------------------------------------------------------------

  /** A key's directory with its metadata, and only versions of that kind. */
  ghost predicate OfKind(t: Tree<File>, dir: Path, kind: Kind) {
    && dir in t.dirs
    && FileAt(t, Child(dir, "metadata")) == Some(Metadata(kind))
    && forall n: nat | Child(dir, Format(n)) in t.files :: HasKind(t.files[Child(dir, Format(n))], kind)
  }

  /** Versions are made in `dir` under its own metadata, and that is not destroyed. */
  predicate Keeps(root: string, op: Op, dir: Path) {
    && !Destroys(root, op, Child(dir, "metadata"))
    && (op.MakeVersion? && Joined(root, op.parent) == dir ==> Straight(root, op.parent))
  }

  lemma DirStays(root: string, t: Tree<File>, op: Op, dir: Path)
    requires dir in t.dirs && Child(dir, "metadata") in t.files
    ensures dir in Next(root, t, op).dirs
  {
    match op
    case MakeKey(parent, name, kind) => MakeKeyCases(root, t, parent, name, kind);
    case MakeVersion(parent, now, material) => MakeVersionWrites(root, t, parent, now, material);
    case DestroyVersion(id) => FilledStays(root, t, id, dir);
  }

  /** A directory with something in it is not removed. */
  lemma FilledStays(root: string, t: Tree<File>, id: string, dir: Path)
    requires dir in t.dirs && Child(dir, "metadata") in t.files
    ensures dir in Destroy(root, t, id).1.dirs
  {
    EntriesAreChildren(t, dir, "metadata");
    assert "metadata" in Entries(t, dir);
  }

  lemma MetadataStays(root: string, t: Tree<File>, op: Op, m: Path)
    requires m.elems != [] && Last(m) == "metadata" && m in t.files && !Destroys(root, op, m)
    ensures FileAt(Next(root, t, op), m) == FileAt(t, m)
  {
    match op
    case MakeKey(parent, name, kind) => var _ := MakeKeyWrites(root, t, parent, name, kind);
    case MakeVersion(parent, now, material) =>
      MakeVersionWrites(root, t, parent, now, material);
      FormatNormal(now);
      ChildParts(Joined(root, parent), Format(now));
    case DestroyVersion(id) => DestroyWrites(root, t, id);
  }

  lemma KindStays(root: string, t: Tree<File>, op: Op, dir: Path, kind: Kind, n: nat)
    requires OfKind(t, dir, kind) && Keeps(root, op, dir) && Child(dir, Format(n)) in Next(root, t, op).files
    ensures HasKind(Next(root, t, op).files[Child(dir, Format(n))], kind)
  {
    ChildParts(dir, Format(n));
    FormatNormal(n);
    match op
    case MakeKey(parent, name, k) => var _ := MakeKeyWrites(root, t, parent, name, k);
    case MakeVersion(parent, now, material) =>
      MakeVersionWrites(root, t, parent, now, material);
      SameChild(dir, n, Joined(root, parent), now);
      if CreateVersion(root, t, parent, now, material).0.Ok? && dir == Joined(root, parent) && n == now {
        StraightExactly(root, parent);
        var k := VersionHasKind(root, t, parent, now, material);
      }
    case DestroyVersion(id) => DestroyWrites(root, t, id);
  }

  /** Whatever happens elsewhere, the versions of a key keep the kind of its metadata. */
  lemma {:induction false} RunKeepsKind(root: string, t: Tree<File>, ops: seq<Op>, dir: Path, kind: Kind)
    requires OfKind(t, dir, kind) && forall op <- ops :: Keeps(root, op, dir)
    ensures OfKind(Run(root, t, ops), dir, kind)
    decreases |ops|
  {
    if ops != [] {
      var t' := Next(root, t, ops[0]);
      assert ops[0] in ops;
      ChildParts(dir, "metadata");
      DirStays(root, t, ops[0], dir);
      MetadataStays(root, t, ops[0], Child(dir, "metadata"));
      forall n: nat | Child(dir, Format(n)) in t'.files
        ensures HasKind(t'.files[Child(dir, Format(n))], kind)
      {
        KindStays(root, t, ops[0], dir, kind, n);
      }
      RunKeepsKind(root, t', ops[1..], dir, kind);
    }
  }

  /** A key that was made, in a directory without versions, starts like that. */
  lemma KeyStartsOfKind(root: string, t: Tree<File>, parent: string, name: string, kind: Kind)
    requires Tidy(root) && CreateKey(root, t, parent, name, kind).0.Ok?
    requires var made := CreateKey(root, t, parent, name, kind); AreLive(made.1, KeyDir(root, made.0.value), {})
    ensures var made := CreateKey(root, t, parent, name, kind); OfKind(made.1, KeyDir(root, made.0.value), kind)
  {
    var id, t' := CreateKey(root, t, parent, name, kind).0.value, CreateKey(root, t, parent, name, kind).1;
    IdMeansOneDirectory(root, t, parent, name, kind);
    KeyHasKind(root, t, parent, name, kind);
    MetadataOfKeyDir(root, t', id);
    NoVersions(t', KeyDir(root, id), kind);
  }

  lemma NoVersions(t: Tree<File>, dir: Path, kind: Kind)
    requires AreLive(t, dir, {}) && dir in t.dirs && FileAt(t, Child(dir, "metadata")) == Some(Metadata(kind))
    ensures OfKind(t, dir, kind)
  {
  }

  // ---- What works then -----------------------------------------------------------------------

  lemma {:induction false} NewestExists(live: set<nat>) returns (n: nat)
    requires live != {}
    ensures Newest(live, n)
    decreases |live|
  {
    var k :| k in live;
    var rest := live - {k};
    assert forall m :: m in live <==> m == k || m in rest;
    if rest == {} {
      return k;
    }
    n := NewestExists(rest);
    if n < k {
      return k;
    }
  }

  /** `Encrypt` succeeds. */
  ghost predicate CanEncrypt(root: string, t: Tree<File>, keyID: string, dir: Path) {
    exists version, key :: Encrypts(root, t, keyID, dir, version, key)
  }

  /** With an encryption key Encrypt succeeds exactly as long as there is a version. */
  lemma EncryptWorksExactly(root: string, t: Tree<File>, clock: nat, keyID: string, dir: Path, live: set<nat>)
    requires WellNamed(t, clock) && AreLive(t, dir, live) && InRange(live) && Flat(t, dir) && OfKind(t, dir, Encryption)
    requires Resolve(root, [keyID]).Ok? && Resolve(root, [keyID]).value != "" && dir == KeyDir(root, keyID)
    ensures CanEncrypt(root, t, keyID, dir) <==> live != {}
  {
    if live != {} {
      var n := NewestExists(live);
      NewestIsGreatest(t, clock, dir, live, n);
      var f := t.files[Child(dir, Format(n))];
      EncryptsNewest(root, t, clock, keyID, dir, live, Format(n), f.key);
    } else if version, key :| Encrypts(root, t, keyID, dir, version, key) {
      EncryptsNewest(root, t, clock, keyID, dir, live, version, key);
    }
  }

  /** With a signing key SigningKeyVersions succeeds. */
  lemma ListingWorks(root: string, t: Tree<File>, clock: nat, parent: string, dir: Path, live: set<nat>)
    requires WellNamed(t, clock) && AreLive(t, dir, live) && Flat(t, dir) && OfKind(t, dir, Signing)
    requires Resolve(root, [parent]).Ok? && dir == KeyDir(root, parent) && Straight(root, parent)
    requires root != "" || parent != ""
    ensures Listable(root, t, parent)
  {
    StraightExactly(root, parent);
    MetadataListed(root, t, parent, dir);
    ResolveOne(root, parent);
    JoinLeads(root, parent);
    ShownNotEmpty(dir);
    forall p | p in Walked(t, dir)
      ensures Readable(root, t, p)
    {
      OnlyLiveWalked(t, clock, dir, live, p);
      var n :| n in live && p == Child(dir, Format(n));
      FormatNormal(n);
      WithinChild(Parse(root), dir, Format(n));
    }
  }

  lemma MetadataListed(root: string, t: Tree<File>, parent: string, dir: Path)
    requires OfKind(t, dir, Signing) && Resolve(root, [parent]).Ok? && dir == KeyDir(root, parent)
    ensures MetadataFor(root, t, parent) == Ok(Signing)
  {
    MetadataNormal();
    ResolveChild(root, parent, "metadata");
    MetadataFound(root, t, parent, Child(dir, "metadata"), Signing);
  }

  /** Over whole runs: Encrypt under a key succeeds exactly while some version that was made is not destroyed. */
  lemma RunEncryptsExactly(root: string, t: Tree<File>, clock: nat, ops: seq<Op>, keyID: string, dir: Path)
    requires WellNamed(t, clock) && Increasing(clock, ops) && AreLive(t, dir, {}) && OfKind(t, dir, Encryption)
    requires forall op <- ops :: Keeps(root, op, dir)
    requires Flat(Run(root, t, ops), dir) && InRange(Live(root, t, dir, {}, ops))
    requires Resolve(root, [keyID]).Ok? && Resolve(root, [keyID]).value != "" && dir == KeyDir(root, keyID)
    ensures CanEncrypt(root, Run(root, t, ops), keyID, dir) <==> Live(root, t, dir, {}, ops) != {}
  {
    RunWellNamed(root, t, clock, ops);
    LiveRun(root, t, dir, {}, ops);
    RunKeepsKind(root, t, ops, dir, Encryption);
    EncryptWorksExactly(root, Run(root, t, ops), Clock(clock, ops), keyID, dir, Live(root, t, dir, {}, ops));
  }

  /** And the versions of a signing key can be listed after every such run. */
  lemma RunLists(root: string, t: Tree<File>, clock: nat, ops: seq<Op>, parent: string, dir: Path)
    requires WellNamed(t, clock) && Increasing(clock, ops) && AreLive(t, dir, {}) && OfKind(t, dir, Signing)
    requires forall op <- ops :: Keeps(root, op, dir)
    requires Flat(Run(root, t, ops), dir)
    requires Resolve(root, [parent]).Ok? && dir == KeyDir(root, parent) && Straight(root, parent)
    requires root != "" || parent != ""
    ensures Listable(root, Run(root, t, ops), parent)
  {
    RunWellNamed(root, t, clock, ops);
    LiveRun(root, t, dir, {}, ops);
    RunKeepsKind(root, t, ops, dir, Signing);
    ListingWorks(root, Run(root, t, ops), Clock(clock, ops), parent, dir, Live(root, t, dir, {}, ops));
  }

  // ---- Where a key gets a version of another kind -----------------------------------------------

  /** A signing key that is the root itself, and an encryption key inside it. */
  function MixedKeys(): Tree<File> {
    var top, d, dd := Path(true, []), Path(true, ["d"]), Path(true, ["d", "d"]);
    Tree(map[Child(d, "metadata") := Metadata(Signing), Child(dd, "metadata") := Metadata(Encryption)], {top, d, dd})
  }

  lemma UpAndDown()
    ensures Parse("/../d") == Path(true, ["d"]) && Joined("/d", "/../d") == Path(true, ["d"])
    ensures KeyDir("/d", "/../d") == Path(true, ["d", "d"])
  {
    RootAndUp();
    UpParsed();
    ElementsOf("d");
    ElementsAppend("/..", "d");
    assert "/.." + "/" + "d" == "/../d";
    var es := Elements("/..");
    WalkAppend(true, [], es, ["d"]);
    WalkAppend(true, ["d"], es, ["d"]);
    WalkDown(true, [], ["d"]);
    WalkDown(true, ["d"], ["d"]);
    assert [] + ["d"] == ["d"] && ["d"] + ["d"] == ["d", "d"];
  }

  lemma MixedMetadata()
    ensures MetadataFor("/d", MixedKeys(), "/../d") == Ok(Encryption)
  {
    UpAndDown();
    RootParsed();
    MetadataNormal();
    var dd := Path(true, ["d", "d"]);
    ResolveOne("/d", "/../d");
    assert dd.elems[..1] == ["d"] && dd.elems[1..] == ["d"];
    ResolveChild("/d", "/../d", "metadata");
    ChildParts(dd, "metadata");
    ChildParts(Path(true, ["d"]), "metadata");
    MetadataFound("/d", MixedKeys(), "/../d", Child(dd, "metadata"), Encryption);
  }

  lemma MixedWritten(now: nat, f: File)
    ensures WriteFile(MixedKeys(), VersionPath("/d", "/../d", now), f).Some?
  {
    UpAndDown();
    VersionPathLeads("/d", "/../d", now);
    FormatNormal(now);
    var d := Path(true, ["d"]);
    ChildParts(d, Format(now));
    ShownNotEmpty(Child(d, Format(now)));
    assert Last(Child(d, Format(now))) != Last(Path(true, ["d", "d"])) by {
      assert Format(now)[0] != "d"[0];
    }
  }

  /** An absolute parent that goes up and comes back: the signing key gets an encryption key for a version. */
  lemma VersionOfOtherKind(now: nat, material: bytes)
    ensures OfKind(MixedKeys(), Path(true, ["d"]), Signing) && !Straight("/d", "/../d")
    ensures !OfKind(Next("/d", MixedKeys(), MakeVersion("/../d", now, material)), Path(true, ["d"]), Signing)
  {
    UpAndDown();
    MixedMetadata();
    MixedWritten(now, Dek(material));
    MixedStart();
    NotStraight();
    MakeVersionWrites("/d", MixedKeys(), "/../d", now, material);
    MixedMade(Next("/d", MixedKeys(), MakeVersion("/../d", now, material)), now, material);
  }

  lemma NotStraight()
    ensures !Straight("/d", "/../d")
  {
    UpAndDown();
    StraightExactly("/d", "/../d");
    assert Path(true, ["d"]).elems != ["d", "d"];
  }

  lemma MixedMade(t: Tree<File>, now: nat, material: bytes)
    requires t.files == MixedKeys().files[Child(Path(true, ["d"]), Format(now)) := Dek(material)]
    ensures !OfKind(t, Path(true, ["d"]), Signing)
  {
    assert Child(Path(true, ["d"]), Format(now)) in t.files;
  }

  lemma MixedStart()
    ensures OfKind(MixedKeys(), Path(true, ["d"]), Signing)
  {
    var d, dd := Path(true, ["d"]), Path(true, ["d", "d"]);
    ChildParts(d, "metadata");
    ChildParts(dd, "metadata");
    forall n: nat
      ensures Child(d, Format(n)) !in MixedKeys().files
    {
      FormatNormal(n);
      ChildParts(d, Format(n));
    }
  }
}
