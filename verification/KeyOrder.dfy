/**
 Which version is the newest: names are compared as strings, and between September 2001 and
 the end of int64 that is the order of the clock readings they were made from.
 */
module KeyOrder {
  import opened Wrappers
  import opened Bytes
  import opened Strings
  import opened Paths
  import opened PathIds
  import opened FileTree
  import opened Decimal
  import opened KeyManager
  import opened KeyPaths
  import opened KeyRotation

  predicate InRange(live: set<nat>) {
    forall n <- live :: EARLIEST <= n < INT64_LIMIT
  }

  predicate Newest(live: set<nat>, n: nat) {
    n in live && forall m <- live :: m <= n
  }

  // ---- Live versions ------------------------------------------------------------------------

  /** The clock readings of the versions that were made in `dir` and not destroyed since. */
  function Live(root: string, t: Tree<File>, dir: Path, live: set<nat>, ops: seq<Op>): set<nat>
    decreases |ops|
  {
    if ops == [] then live else Live(root, Next(root, t, ops[0]), dir, NextLive(root, t, dir, live, ops[0]), ops[1..])
  }

  function NextLive(root: string, t: Tree<File>, dir: Path, live: set<nat>, op: Op): set<nat> {
    match op
    case MakeKey(_, _, _) => live
    case MakeVersion(parent, now, material) =>
      if Joined(root, parent) == dir && CreateVersion(root, t, parent, now, material).0.Ok? then live + {now} else live
    case DestroyVersion(_) => set n | n in live && !Destroys(root, op, Child(dir, Format(n)))
  }

  ghost predicate AreLive(t: Tree<File>, dir: Path, live: set<nat>) {
    forall n: nat :: Child(dir, Format(n)) in t.files <==> n in live
  }

  lemma SameChild(dir: Path, n: nat, other: Path, m: nat)
    ensures Child(dir, Format(n)) == Child(other, Format(m)) <==> dir == other && n == m
  {
    ChildParts(dir, Format(n));
    ChildParts(other, Format(m));
    if Format(n) == Format(m) {
      FormatInjective(n, m);
    }
  }

  lemma LiveStep(root: string, t: Tree<File>, dir: Path, live: set<nat>, op: Op)
    requires AreLive(t, dir, live)
    ensures AreLive(Next(root, t, op), dir, NextLive(root, t, dir, live, op))
  {
    var t', live' := Next(root, t, op), NextLive(root, t, dir, live, op);
    match op
    case MakeKey(parent, name, kind) =>
      var m := MakeKeyWrites(root, t, parent, name, kind);
      forall n: nat
        ensures Child(dir, Format(n)) in t'.files <==> n in live
      {
        FormatNormal(n);
        ChildParts(dir, Format(n));
        assert Child(dir, Format(n)) in t.files <==> n in live;
      }
    case MakeVersion(parent, now, material) =>
      MakeVersionWrites(root, t, parent, now, material);
      forall n: nat
        ensures Child(dir, Format(n)) in t'.files <==> n in live'
      {
        SameChild(dir, n, Joined(root, parent), now);
        assert Child(dir, Format(n)) in t.files <==> n in live;
      }
    case DestroyVersion(id) =>
      DestroyWrites(root, t, id);
      forall n: nat
        ensures Child(dir, Format(n)) in t'.files <==> n in live'
      {
        assert Child(dir, Format(n)) in t.files <==> n in live;
      }
  }

  lemma {:induction false} LiveRun(root: string, t: Tree<File>, dir: Path, live: set<nat>, ops: seq<Op>)
    requires AreLive(t, dir, live)
    ensures AreLive(Run(root, t, ops), dir, Live(root, t, dir, live, ops))
    decreases |ops|
  {
    if ops != [] {
      LiveStep(root, t, dir, live, ops[0]);
      LiveRun(root, Next(root, t, ops[0]), dir, NextLive(root, t, dir, live, ops[0]), ops[1..]);
    }
  }

  // ---- Encrypt ----------------------------------------------------------------------------

  /** No entry but the metadata has a greater name. */
  ghost predicate NothingGreater(names: set<string>, version: string) {
    forall e <- names :: e == "metadata" || !Less(version, e)
  }

  lemma NotBelow(m: nat, n: nat)
    requires InRange({m, n})
    ensures (Format(m) == Format(n) || Less(Format(m), Format(n))) <==> m <= n
  {
    NamesOrderAsClock(m, n);
    if Format(m) == Format(n) {
      FormatInjective(m, n);
    }
  }

  /** A version has the greatest name exactly when nothing has a greater one; then it is the last that was made. */
  lemma LatestIsNewest(names: set<string>, live: set<nat>, n: nat)
    requires InRange(live) && n in live && forall m <- live :: Format(m) in names
    ensures IsLatest(names, Some(Format(n))) <==> NothingGreater(names, Format(n))
    ensures NothingGreater(names, Format(n)) ==> Newest(live, n)
  {
    FormatNormal(n);
    forall e | e in names
      ensures !Less(Format(n), e) <==> e == Format(n) || Less(e, Format(n))
    {
      LessTotal(Format(n), e);
    }
    if NothingGreater(names, Format(n)) {
      forall m | m in live
        ensures m <= n
      {
        FormatNormal(m);
        LessTotal(Format(n), Format(m));
        NotBelow(m, n);
      }
    }
  }

  lemma LiveEntries(t: Tree<File>, dir: Path, live: set<nat>)
    requires AreLive(t, dir, live)
    ensures forall n <- live :: Format(n) in Entries(t, dir)
  {
    forall n | n in live
      ensures Format(n) in Entries(t, dir)
    {
      FormatNormal(n);
      EntriesAreChildren(t, dir, Format(n));
    }
  }

  /**
   After any calls Encrypt uses, of the versions made in the key's directory and not destroyed
   since, the one that was made last; it is refused exactly when there is none, when the newest
   is no encryption key, or when something else in the directory, which can only be a key made
   inside it, has a greater name.
   */
  lemma EncryptsWithNewestExactly(root: string, t: Tree<File>, clock: nat, ops: seq<Op>, keyID: string, dir: Path,
                                  version: string, key: bytes)
    requires WellNamed(t, clock) && Increasing(clock, ops) && AreLive(t, dir, {})
    requires InRange(Live(root, t, dir, {}, ops))
    requires Resolve(root, [keyID]).Ok? && Resolve(root, [keyID]).value != "" && dir == KeyDir(root, keyID)
    requires dir in Run(root, t, ops).dirs
    ensures Encrypts(root, Run(root, t, ops), keyID, dir, version, key) <==>
            && FileAt(Run(root, t, ops), Child(dir, version)) == Some(Dek(key))
            && (exists n :: Newest(Live(root, t, dir, {}, ops), n) && version == Format(n))
            && NothingGreater(Entries(Run(root, t, ops), dir), version)
  {
    RunWellNamed(root, t, clock, ops);
    LiveRun(root, t, dir, {}, ops);
    EncryptsNewest(root, Run(root, t, ops), Clock(clock, ops), keyID, dir, Live(root, t, dir, {}, ops), version, key);
  }

  lemma EncryptsNewest(root: string, t: Tree<File>, clock: nat, keyID: string, dir: Path, live: set<nat>,
                       version: string, key: bytes)
    requires WellNamed(t, clock) && AreLive(t, dir, live) && InRange(live)
    requires Resolve(root, [keyID]).Ok? && Resolve(root, [keyID]).value != "" && dir == KeyDir(root, keyID)
    requires dir in t.dirs
    ensures Encrypts(root, t, keyID, dir, version, key) <==>
            && FileAt(t, Child(dir, version)) == Some(Dek(key))
            && (exists n :: Newest(live, n) && version == Format(n))
            && NothingGreater(Entries(t, dir), version)
  {
    LiveEntries(t, dir, live);
    if Encrypts(root, t, keyID, dir, version, key) {
      UsesNewest(root, t, clock, keyID, dir, live, version, key);
    }
    if n :| Newest(live, n) && version == Format(n) {
      LatestIsNewest(Entries(t, dir), live, n);
      if NothingGreater(Entries(t, dir), version) && FileAt(t, Child(dir, version)) == Some(Dek(key)) {
        EncryptsLatest(root, t, keyID, dir, n, key);
      }
    }
  }

  lemma UsesNewest(root: string, t: Tree<File>, clock: nat, keyID: string, dir: Path, live: set<nat>,
                   version: string, key: bytes)
    requires WellNamed(t, clock) && AreLive(t, dir, live) && InRange(live)
    requires forall m <- live :: Format(m) in Entries(t, dir)
    requires Encrypts(root, t, keyID, dir, version, key)
    ensures FileAt(t, Child(dir, version)) == Some(Dek(key)) && NothingGreater(Entries(t, dir), version)
    ensures exists n :: Newest(live, n) && version == Format(n)
  {
    var n := EncryptsFromFile(root, t, clock, keyID, dir, version, key);
    assert n in live;
    UsesLatest(root, t, keyID, dir, version, key);
    LatestIsNewest(Entries(t, dir), live, n);
  }

  lemma UsesLatest(root: string, t: Tree<File>, keyID: string, dir: Path, version: string, key: bytes)
    requires Encrypts(root, t, keyID, dir, version, key)
    ensures IsLatest(Entries(t, dir), Some(version))
  {
  }

  lemma EncryptsLatest(root: string, t: Tree<File>, keyID: string, dir: Path, n: nat, key: bytes)
    requires Resolve(root, [keyID]).Ok? && Resolve(root, [keyID]).value != "" && dir == KeyDir(root, keyID)
    requires dir in t.dirs
    requires IsLatest(Entries(t, dir), Some(Format(n))) && FileAt(t, Child(dir, Format(n))) == Some(Dek(key))
    ensures Encrypts(root, t, keyID, dir, Format(n), key)
  {
    ResolveOne(root, keyID);
    ParseShow(dir);
    FormatNormal(n);
    JoinedChild(Show(dir), Format(n));
    JoinLeads(Show(dir), Format(n));
    ShownNotEmpty(Child(dir, Format(n)));
  }

  /** Below a key's directory there are only files, and no key further down. */
  predicate Flat(t: Tree<File>, dir: Path) {
    && dir !in t.files
    && forall p <- t.files.Keys + t.dirs :: p.rooted == dir.rooted && dir.elems < p.elems ==>
        p in t.files && Parent(p) == dir
  }

  lemma FlatFile(t: Tree<File>, clock: nat, dir: Path, live: set<nat>, p: Path)
    requires WellNamed(t, clock) && Flat(t, dir) && AreLive(t, dir, live)
    requires p in t.files.Keys + t.dirs && p.rooted == dir.rooted && dir.elems < p.elems
    ensures p in t.files && p == Child(dir, Last(p))
    ensures Last(p) == "metadata" || exists n :: n in live && Last(p) == Format(n)
  {
    assert p.elems == p.elems[..|p.elems| - 1] + [Last(p)];
    if !t.files[p].Metadata? {
      var n: nat :| n <= clock && Last(p) == Format(n);
      assert n in live;
    }
  }

  /** In a key's directory without keys inside nothing has a greater name than the newest version. */
  lemma NewestIsGreatest(t: Tree<File>, clock: nat, dir: Path, live: set<nat>, n: nat)
    requires WellNamed(t, clock) && Flat(t, dir) && AreLive(t, dir, live) && InRange(live) && Newest(live, n)
    ensures NothingGreater(Entries(t, dir), Format(n))
  {
    forall e | e in Entries(t, dir)
      ensures e == "metadata" || exists m :: m in live && e == Format(m)
    {
      FlatEntry(t, clock, dir, live, e);
    }
    GreatestOf(Entries(t, dir), live, n);
  }

  lemma GreatestOf(names: set<string>, live: set<nat>, n: nat)
    requires InRange(live) && Newest(live, n)
    requires forall e <- names :: e == "metadata" || exists m :: m in live && e == Format(m)
    ensures NothingGreater(names, Format(n))
  {
    forall e | e in names && e != "metadata"
      ensures !Less(Format(n), e)
    {
      var m :| m in live && e == Format(m);
      NotAbove(m, n);
    }
  }

  lemma NotAbove(m: nat, n: nat)
    requires InRange({m, n}) && m <= n
    ensures !Less(Format(n), Format(m))
  {
    NamesOrderAsClock(n, m);
  }

  lemma FlatEntry(t: Tree<File>, clock: nat, dir: Path, live: set<nat>, e: string)
    requires WellNamed(t, clock) && Flat(t, dir) && AreLive(t, dir, live) && e in Entries(t, dir)
    ensures e == "metadata" || exists n :: n in live && e == Format(n)
  {
    EntriesAreChildren(t, dir, e);
    ChildParts(dir, e);
    FlatFile(t, clock, dir, live, Child(dir, e));
  }

  // ---- SigningKeyVersions -----------------------------------------------------------------

  /** What stands before the last element of a path below `dir`. */
  function Front(dir: Path): string {
    (if dir.rooted then "/" else "") + (if dir.elems == [] then "" else Join(dir.elems, "/") + "/")
  }

  lemma FrontShown(dir: Path, e: string)
    ensures Show(Child(dir, e)) == Front(dir) + e
  {
    if dir.elems != [] {
      JoinAppend(dir.elems, [e]);
    }
  }

  function Name(root: string, dir: Path, n: nat): string {
    TrimPrefix(Show(Child(dir, Format(n))), root)
  }

  /** No root reaches into the names of two versions below it. */
  lemma RootInFront(root: string, dir: Path, a: nat, b: nat)
    requires Canonical(dir) && a != b && root <= Show(Child(dir, Format(a)))
    requires Within(Parse(root), Child(dir, Format(a))) && Within(Parse(root), Child(dir, Format(b)))
    ensures root <= Front(dir)
  {
    FrontShown(dir, Format(a));
    if |root| > |Front(dir)| {
      var x := Format(a)[..|root| - |Front(dir)|];
      assert root == Front(dir) + x;
      DigitsNormal(x);
      RootIsChild(root, dir, x);
      ChildOnly(dir, x, Format(a));
      ChildOnly(dir, x, Format(b));
      FormatInjective(a, b);
    }
  }

  lemma DigitsNormal(x: string)
    requires x != "" && forall i :: 0 <= i < |x| ==> '0' <= x[i] <= '9'
    ensures Normal(x)
  {
    assert x[0] != '.';
  }

  lemma RootIsChild(root: string, dir: Path, x: string)
    requires Canonical(dir) && Normal(x) && root == Front(dir) + x
    ensures Parse(root) == Child(dir, x)
  {
    FrontShown(dir, x);
    ParseShow(Child(dir, x));
  }

  lemma ChildOnly(dir: Path, x: string, e: string)
    requires Child(dir, x).elems <= Child(dir, e).elems
    ensures x == e
  {
    assert Child(dir, x).elems[|dir.elems|] == Child(dir, e).elems[|dir.elems|];
  }

  lemma NameOrder(root: string, dir: Path, a: nat, b: nat)
    requires Canonical(dir) && InRange({a, b})
    requires Within(Parse(root), Child(dir, Format(a))) && Within(Parse(root), Child(dir, Format(b)))
    ensures Less(Name(root, dir, a), Name(root, dir, b)) <==> a < b
  {
    var front, s, t := Front(dir), Format(a), Format(b);
    FrontShown(dir, s);
    FrontShown(dir, t);
    NamesOrderAsClock(a, b);
    if a == b {
      LessIrreflexive(Name(root, dir, a));
    } else {
      if !(root <= front) {
        NotTrimmed(root, dir, a, b);
        NotTrimmed(root, dir, b, a);
      }
      SamePrefixTrimmed(root, front, s, t);
    }
  }

  lemma NotTrimmed(root: string, dir: Path, a: nat, b: nat)
    requires Canonical(dir) && a != b && !(root <= Front(dir))
    requires Within(Parse(root), Child(dir, Format(a))) && Within(Parse(root), Child(dir, Format(b)))
    ensures !(root <= Front(dir) + Format(a))
  {
    FrontShown(dir, Format(a));
    if root <= Front(dir) + Format(a) {
      RootInFront(root, dir, a, b);
    }
  }

  /** Trimming a prefix that ends before the names begin, or none at all, leaves the order to the names. */
  lemma SamePrefixTrimmed(root: string, front: string, s: string, t: string)
    requires root <= front || (!(root <= front + s) && !(root <= front + t))
    ensures Less(TrimPrefix(front + s, root), TrimPrefix(front + t, root)) <==> Less(s, t)
  {
    if root <= front {
      assert (front + s)[|root|..] == front[|root|..] + s && (front + t)[|root|..] == front[|root|..] + t;
      LessAfterPrefix(front[|root|..], s, t);
    } else {
      LessAfterPrefix(front, s, t);
    }
  }

  function Files(versions: seq<Version>): set<Path> {
    set v | v in versions :: v.file
  }

  lemma {:induction false} FilesCount(versions: seq<Version>)
    ensures |Files(versions)| <= |versions|
    ensures |Files(versions)| == |versions| ==> forall i, j :: 0 <= i < j < |versions| ==>
              versions[i].file != versions[j].file
  {
    if versions != [] {
      var k := |versions| - 1;
      var rest := versions[..k];
      FilesCount(rest);
      FilesSnoc(rest, versions[k]);
      assert versions == rest + [versions[k]];
      if |Files(versions)| == |versions| {
        forall i | 0 <= i < k
          ensures versions[i].file != versions[k].file
        {
          assert rest[i] in rest;
        }
      }
    }
  }

  lemma FilesSnoc(versions: seq<Version>, v: Version)
    ensures Files(versions + [v]) == Files(versions) + {v.file}
    ensures v.file in Files(versions) ==> Files(versions + [v]) == Files(versions)
  {
    assert forall w :: w in versions + [v] <==> w in versions || w == v;
  }

  /**
   What SigningKeyVersions answers after any calls: every version that was made in the key's
   directory and not destroyed since, once, the newest first.  Versions of keys inside the
   directory are listed too, somewhere between.
   */
  lemma ListedNewestFirst(root: string, t: Tree<File>, ops: seq<Op>, parent: string, dir: Path, versions: seq<Version>)
    requires AreLive(t, dir, {}) && dir == Parse(JoinPath([root, parent])) && InRange(Live(root, t, dir, {}, ops))
    requires Listable(root, Run(root, t, ops), parent) && Descending(versions)
    requires Lists(root, Run(root, t, ops), Walked(Run(root, t, ops), dir), versions)
    ensures forall n: nat :: n in Live(root, t, dir, {}, ops) <==> Child(dir, Format(n)) in Files(versions)
    ensures forall i, j :: 0 <= i < j < |versions| ==> versions[i].file != versions[j].file
    ensures NewestFirst(versions, dir)
  {
    ParseCanonical(JoinPath([root, parent]));
    LiveRun(root, t, dir, {}, ops);
    ListableReadable(root, Run(root, t, ops), parent, dir);
    ListsInOrder(root, Run(root, t, ops), dir, Live(root, t, dir, {}, ops), versions);
  }

  lemma ListsInOrder(root: string, t: Tree<File>, dir: Path, live: set<nat>, versions: seq<Version>)
    requires Canonical(dir) && AreLive(t, dir, live) && InRange(live) && Descending(versions)
    requires Lists(root, t, Walked(t, dir), versions) && forall p <- Walked(t, dir) :: Readable(root, t, p)
    ensures forall n: nat :: n in live <==> Child(dir, Format(n)) in Files(versions)
    ensures forall i, j :: 0 <= i < j < |versions| ==> versions[i].file != versions[j].file
    ensures NewestFirst(versions, dir)
  {
    FilesListed(root, t, Walked(t, dir), versions);
    LiveWalked(t, dir, live);
    VersionsReadable(root, t, Walked(t, dir), versions);
    AllInOrder(root, t, dir, live, versions);
  }

  lemma VersionsReadable(root: string, t: Tree<File>, files: set<Path>, versions: seq<Version>)
    requires Lists(root, t, files, versions) && forall p <- files :: Readable(root, t, p)
    ensures forall v <- versions :: Listing(root, t, v) && Readable(root, t, v.file)
  {
  }

  /** The live versions are the listed ones, and each is listed once. */
  ghost predicate ListedOnce(dir: Path, live: set<nat>, versions: seq<Version>) {
    && (forall n: nat :: n in live <==> Child(dir, Format(n)) in Files(versions))
    && (forall i, j :: 0 <= i < j < |versions| ==> versions[i].file != versions[j].file)
  }

  lemma AllInOrder(root: string, t: Tree<File>, dir: Path, live: set<nat>, versions: seq<Version>)
    requires Canonical(dir) && InRange(live) && Descending(versions) && ListedOnce(dir, live, versions)
    requires forall v <- versions :: Listing(root, t, v) && Readable(root, t, v.file)
    ensures NewestFirst(versions, dir)
  {
    forall i, j, a: nat, b: nat | 0 <= i < j < |versions| && IsOf(versions[i], dir, a) && IsOf(versions[j], dir, b)
      ensures a > b
    {
      IsLive(dir, live, versions, i, a);
      IsLive(dir, live, versions, j, b);
      NotTwice(dir, live, versions, i, j);
      InOrder(root, t, dir, versions, i, j, a, b);
    }
  }

  lemma IsLive(dir: Path, live: set<nat>, versions: seq<Version>, i: nat, n: nat)
    requires i < |versions| && IsOf(versions[i], dir, n) && ListedOnce(dir, live, versions) && InRange(live)
    ensures InRange({n})
  {
    assert versions[i] in versions && versions[i].file in Files(versions);
    assert n in live;
  }

  lemma NotTwice(dir: Path, live: set<nat>, versions: seq<Version>, i: nat, j: nat)
    requires i < j < |versions| && ListedOnce(dir, live, versions)
    ensures versions[i].file != versions[j].file
  {
  }

  /** Of two versions made in `dir` the later one is listed first. */
  ghost predicate NewestFirst(versions: seq<Version>, dir: Path) {
    forall i, j, a: nat, b: nat
      | 0 <= i < j < |versions| && IsOf(versions[i], dir, a) && IsOf(versions[j], dir, b) :: a > b
  }

  /** The version that was made in `dir` at clock `n`. */
  predicate IsOf(v: Version, dir: Path, n: nat) {
    v.file == Child(dir, Format(n))
  }

  lemma LiveWalked(t: Tree<File>, dir: Path, live: set<nat>)
    requires AreLive(t, dir, live)
    ensures forall n: nat :: n in live <==> Child(dir, Format(n)) in Walked(t, dir)
  {
    forall n: nat
      ensures n in live <==> Child(dir, Format(n)) in Walked(t, dir)
    {
      FormatNormal(n);
      ChildParts(dir, Format(n));
      assert n in live <==> Child(dir, Format(n)) in t.files;
    }
  }

  /** Without keys inside, nothing else is listed. */
  lemma OnlyLiveWalked(t: Tree<File>, clock: nat, dir: Path, live: set<nat>, p: Path)
    requires WellNamed(t, clock) && Flat(t, dir) && AreLive(t, dir, live) && p in Walked(t, dir)
    ensures exists n :: n in live && p == Child(dir, Format(n))
  {
    assert p.elems != dir.elems;
    FlatFile(t, clock, dir, live, p);
  }

  lemma ListableReadable(root: string, t: Tree<File>, parent: string, dir: Path)
    requires Listable(root, t, parent) && dir == Parse(JoinPath([root, parent]))
    ensures forall p <- Walked(t, dir) :: Readable(root, t, p)
  {
  }

  lemma InOrder(root: string, t: Tree<File>, dir: Path, versions: seq<Version>, i: nat, j: nat, a: nat, b: nat)
    requires Canonical(dir) && InRange({a}) && InRange({b}) && Descending(versions) && i < j < |versions|
    requires forall v <- versions :: Listing(root, t, v) && Readable(root, t, v.file)
    requires versions[i].file == Child(dir, Format(a)) && versions[j].file == Child(dir, Format(b))
    requires versions[i].file != versions[j].file
    ensures a > b
  {
    assert versions[i] in versions && versions[j] in versions;
    NameOrder(root, dir, a, b);
  }

  lemma FilesListed(root: string, t: Tree<File>, files: set<Path>, versions: seq<Version>)
    requires Lists(root, t, files, versions)
    ensures Files(versions) == files
    ensures forall i, j :: 0 <= i < j < |versions| ==> versions[i].file != versions[j].file
  {
    forall p | p in files
      ensures p in Files(versions)
    {
      var v :| v in versions && v.file == p;
    }
    assert Files(versions) == files;
    FilesCount(versions);
  }
}
