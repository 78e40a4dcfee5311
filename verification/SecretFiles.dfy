/**
 The filesystem secret manager of secrets/filesystem.go: each version of a secret is a file
 named after the clock, and its reference is the path below the root.
 */
module SecretFiles {
  import opened Wrappers
  import opened Bytes
  import opened Strings
  import opened Decimal
  import opened Paths
  import opened PathIds
  import opened IdRoots
  import opened FileTree

  datatype Error = BadPath | NotFound | Io

  // ---- The calls --------------------------------------------------------------------------

  function Get(root: string, t: Tree<bytes>, name: string): Result<bytes, Error> {
    match SafeJoin(root, name)
    case Err(_) => Err(BadPath)
    case Ok(pth) =>
      match ReadFile<bytes>(t, pth)
      case None => Err(NotFound)
      case Some(data) => Ok(data)
  }

  /** The answer, and the tree after it; directories that were made stay when the write fails. */
  function Create(root: string, t: Tree<bytes>, parent: string, now: nat, data: bytes)
    : (Result<string, Error>, Tree<bytes>)
  {
    match SafeJoin(root, parent)
    case Err(_) => (Err(BadPath), t)
    case Ok(dir) =>
      match MkdirAll(t, dir)
      case None => (Err(Io), t)
      case Some(t') =>
        match WriteFile(t', JoinPath([dir, Format(now)]), data)
        case None => (Err(Io), t')
        case Some(t'') => (Ok(TrimPrefix(TrimPrefix(JoinPath([dir, Format(now)]), root), "/")), t'')
  }

  /** A missing file is no error. */
  function Destroy(root: string, t: Tree<bytes>, name: string): (Result<(), Error>, Tree<bytes>) {
    match SafeJoin(root, name)
    case Err(_) => (Err(BadPath), t)
    case Ok(pth) =>
      match Remove(t, pth)
      case Removed(t') => (Ok(()), t')
      case Missing => (Ok(()), t)
      case Failed => (Err(Io), t)
  }

  class Filesystem {
    const root: string
    var t: Tree<bytes>

    constructor (root: string, t: Tree<bytes>)
      ensures this.root == root && this.t == t
    {
      this.root, this.t := root, t;
    }

    method GetSecretValue(name: string) returns (r: Result<bytes, Error>)
      ensures r == Get(root, t, name)
    {
      var pth := SafeJoin(root, name);
      if pth.Err? {
        return Err(BadPath);
      }
      var data := ReadFile(t, pth.value);
      return if data.None? then Err(NotFound) else Ok(data.value);
    }

    method CreateSecretVersion(parent: string, now: nat, data: bytes) returns (r: Result<string, Error>)
      modifies this
      ensures (r, t) == Create(root, old(t), parent, now, data)
    {
      var dir := SafeJoin(root, parent);
      if dir.Err? {
        return Err(BadPath);
      }
      var made := MkdirAll(t, dir.value);
      if made.None? {
        return Err(Io);
      }
      t := made.value;
      var pth := JoinPath([dir.value, Format(now)]);
      var written := WriteFile(t, pth, data);
      if written.None? {
        return Err(Io);
      }
      t := written.value;
      return Ok(TrimPrefix(TrimPrefix(pth, root), "/"));
    }

    method DestroySecretVersion(name: string) returns (r: Result<(), Error>)
      modifies this
      ensures (r, t) == Destroy(root, old(t), name)
    {
      var pth := SafeJoin(root, name);
      if pth.Err? {
        return Err(BadPath);
      }
      var removed := Remove(t, pth.value);
      if removed.Failed? {
        return Err(Io);
      }
      if removed.Removed? {
        t := removed.tree;
      }
      return Ok(());
    }
  }

  // ---- One call ---------------------------------------------------------------------------

  /** The file of a version. */
  function VersionFile(root: string, parent: string, now: nat): Path {
    Child(Joined(root, parent), Format(now))
  }

  lemma VersionWithin(root: string, parent: string, now: nat)
    requires SafeJoin(root, parent).Ok? && SafeJoin(root, parent).value != ""
    ensures var p := VersionFile(root, parent, now);
            && Canonical(p) && Within(Parse(root), p)
            && JoinPath([SafeJoin(root, parent).value, Format(now)]) == Show(p) && Parse(Show(p)) == p
  {
    var v := Format(now);
    var d := Joined(root, parent);
    SafeJoinExactly(root, parent);
    JoinLeads(root, parent);
    FormatNormal(now);
    assert SafeJoin(root, parent).value == Show(d);
    ParseShow(d);
    JoinedChild(Show(d), v);
    JoinLeads(Show(d), v);
    ParseShow(Child(d, v));
    assert Child(d, v).elems[|Parse(root).elems|..] == d.elems[|Parse(root).elems|..] + [v];
  }

  lemma Created(root: string, t: Tree<bytes>, parent: string, now: nat, data: bytes)
    requires Create(root, t, parent, now, data).0.Ok?
    ensures var p := VersionFile(root, parent, now);
            && Canonical(p) && Within(Parse(root), p)
            && Create(root, t, parent, now, data).0.value == TrimPrefix(TrimPrefix(Show(p), root), "/")
            && Create(root, t, parent, now, data).1.files == t.files[p := data]
  {
    VersionWithin(root, parent, now);
  }

  lemma Failed(root: string, t: Tree<bytes>, parent: string, now: nat, data: bytes)
    requires Create(root, t, parent, now, data).0.Err?
    ensures Create(root, t, parent, now, data).1.files == t.files
  {
  }

  /**
   The reference of a version leads back to the file that was written exactly when the root
   fits, for every root; it does for one that is empty, or cleaned and not ".".
   */
  lemma ReferenceReturnsExactly(root: string, t: Tree<bytes>, parent: string, now: nat, data: bytes)
    requires Create(root, t, parent, now, data).0.Ok?
    ensures SafeJoin(root, Create(root, t, parent, now, data).0.value) == Ok(Show(VersionFile(root, parent, now)))
            <==> IdFits(root, Show(VersionFile(root, parent, now)))
    ensures Parse(Show(VersionFile(root, parent, now))) == VersionFile(root, parent, now)
    ensures Tidy(root) ==> IdFits(root, Show(VersionFile(root, parent, now)))
  {
    var p := VersionFile(root, parent, now);
    Created(root, t, parent, now, data);
    JoinsBack(root, Create(root, t, parent, now, data).0.value, p);
    ReferenceLeadsExactly(root, p);
    if Tidy(root) {
      IdLeads(root, p);
    }
  }

  lemma JoinsBack(root: string, name: string, p: Path)
    requires Canonical(p) && Within(Parse(root), p) && p.elems != []
    ensures SafeJoin(root, name) == Ok(Show(p)) <==> Joined(root, name) == p
    ensures Parse(Show(p)) == p
  {
    EmptyIsDot();
    JoinLeads(root, name);
    SafeJoinExactly(root, name);
    ParseShow(p);
    ParseShow(Joined(root, name));
    CleanIdempotent(Show(p));
  }

  // ---- When the calls succeed ---------------------------------------------------------------

  /** The contents of the file that the name leads to, if that is inside the root. */
  lemma GotExactly(root: string, t: Tree<bytes>, name: string, data: bytes)
    ensures var p := Joined(root, name);
            && (Get(root, t, name) == Ok(data)
                <==> Within(Parse(root), p) && !(root == "" && name == "") && FileAt(t, p) == Some(data))
            && (Get(root, t, name) == Err(BadPath) <==> !Within(Parse(root), p))
            && (Get(root, t, name).Err? ==> Get(root, t, name).error in {BadPath, NotFound})
  {
    SecretPath(root, name);
  }

  lemma SecretPath(root: string, name: string)
    ensures SafeJoin(root, name).Ok? <==> Within(Parse(root), Joined(root, name))
    ensures SafeJoin(root, name).Ok? ==>
              var s := SafeJoin(root, name).value;
              && (s == "" <==> root == "" && name == "")
              && (s != "" ==> s == Show(Joined(root, name)) && Parse(s) == Joined(root, name))
  {
    SafeJoinExactly(root, name);
    JoinLeads(root, name);
    ParseShow(Joined(root, name));
    CleanIdempotent(Show(Joined(root, name)));
  }

  /**
   A version is created exactly when its directory is inside the root, no file is in the way of it,
   and no directory has the version's name.  The directory and the file are there afterwards, and
   nothing else has changed; when the write fails the directory stays.
   */
  lemma CreatedExactly(root: string, t: Tree<bytes>, parent: string, now: nat, data: bytes)
    ensures var dir, p := Joined(root, parent), VersionFile(root, parent, now);
            var made := Create(root, t, parent, now, data);
            && (made.0.Ok? <==>
                  Within(Parse(root), dir) && !(root == "" && parent == "") && Passable(t, dir) && p !in t.dirs)
            && (made.0.Ok? ==> made.1 == Tree(t.files[p := data], t.dirs + Ancestors(dir)))
            && (made.0 == Err(BadPath) <==> !Within(Parse(root), dir))
            && (made.0.Err? ==>
                  made.1 == if Within(Parse(root), dir) && !(root == "" && parent == "") && Passable(t, dir)
                            then t.(dirs := t.dirs + Ancestors(dir)) else t)
  {
    var dir := Joined(root, parent);
    SecretPath(root, parent);
    if Within(Parse(root), dir) && !(root == "" && parent == "") {
      MkdirAllExactly(t, Show(dir));
      if Passable(t, dir) {
        VersionWithin(root, parent, now);
        SelfAncestor(dir);
        ChildNoAncestor(dir, Format(now));
        CleanIdempotent(Show(VersionFile(root, parent, now)));
        WrittenInto(t.(dirs := t.dirs + Ancestors(dir)), Show(VersionFile(root, parent, now)), dir, Format(now), data);
      }
    }
  }

  /**
   Destroying succeeds exactly when the name is accepted and there is nothing to remove or what is
   there can be removed; then nothing is left there, and nothing else changes.
   */
  lemma DestroyedExactly(root: string, t: Tree<bytes>, name: string)
    ensures var p, done := Joined(root, name), Destroy(root, t, name);
            && (done.0 == Err(BadPath) <==> !Within(Parse(root), p))
            && (done.0.Ok? <==> Within(Parse(root), p) && ((root == "" && name == "") || Removable(t, p)))
            && (done.0.Err? || (root == "" && name == "") ==> done.1 == t)
            && (done.0.Ok? && !(root == "" && name == "") ==>
                  done.1 == if p in t.files then Tree(t.files - {p}, t.dirs) else Tree(t.files, t.dirs - {p}))
  {
    var p := Joined(root, name);
    SecretPath(root, name);
    if SafeJoin(root, name).Ok? && SafeJoin(root, name).value != "" {
      RemovedExactly(t, Show(p));
      assert p !in t.dirs ==> t.dirs - {p} == t.dirs;
    }
  }

  // ---- Runs -------------------------------------------------------------------------------

  datatype Op =
    | CreateVersion(parent: string, now: nat, data: bytes)
    | DestroyVersion(name: string)

  function Next(root: string, t: Tree<bytes>, op: Op): Tree<bytes> {
    match op
    case CreateVersion(parent, now, data) => Create(root, t, parent, now, data).1
    case DestroyVersion(name) => Destroy(root, t, name).1
  }

  function Run(root: string, t: Tree<bytes>, ops: seq<Op>): Tree<bytes>
    decreases |ops|
  {
    if ops == [] then t else Run(root, Next(root, t, ops[0]), ops[1..])
  }

  /** Every version is created at a later clock than all before. */
  predicate Increasing(clock: nat, ops: seq<Op>)
    decreases |ops|
  {
    ops == [] ||
    match ops[0]
    case CreateVersion(_, now, _) => clock < now && Increasing(now, ops[1..])
    case DestroyVersion(_) => Increasing(clock, ops[1..])
  }

  predicate Destroys(root: string, op: Op, p: Path) {
    && op.DestroyVersion?
    && SafeJoin(root, op.name).Ok? && SafeJoin(root, op.name).value != ""
    && Parse(SafeJoin(root, op.name).value) == p
  }

  predicate Spared(root: string, ops: seq<Op>, p: Path) {
    forall op <- ops :: !Destroys(root, op, p)
  }

  /** A version is not written again at a later clock. */
  lemma Step(root: string, t: Tree<bytes>, op: Op, p: Path, made: nat)
    requires p.elems != [] && Last(p) == Format(made) && (op.CreateVersion? ==> made < op.now)
    ensures FileAt(Next(root, t, op), p) == if Destroys(root, op, p) then None else FileAt(t, p)
  {
    match op
    case CreateVersion(parent, now, data) =>
      ChildParts(Joined(root, parent), Format(now));
      if Format(made) == Format(now) {
        FormatInjective(made, now);
      }
      CreateWrites(root, t, parent, now, data, p);
    case DestroyVersion(name) => DestroyWrites(root, t, name, p);
  }

  lemma CreateWrites(root: string, t: Tree<bytes>, parent: string, now: nat, data: bytes, p: Path)
    requires p != VersionFile(root, parent, now)
    ensures FileAt(Create(root, t, parent, now, data).1, p) == FileAt(t, p)
  {
    if Create(root, t, parent, now, data).0.Ok? {
      Created(root, t, parent, now, data);
    } else {
      Failed(root, t, parent, now, data);
    }
  }

  lemma DestroyWrites(root: string, t: Tree<bytes>, name: string, p: Path)
    ensures FileAt(Destroy(root, t, name).1, p)
              == if Destroys(root, DestroyVersion(name), p) then None else FileAt(t, p)
  {
  }

  lemma {:induction false} RunKeeps(root: string, t: Tree<bytes>, clock: nat, ops: seq<Op>, p: Path, made: nat)
    requires p.elems != [] && Last(p) == Format(made) && made <= clock && Increasing(clock, ops)
    ensures FileAt(Run(root, t, ops), p) == if Spared(root, ops, p) then FileAt(t, p) else None
    decreases |ops|
  {
    if ops != [] {
      var t' := Next(root, t, ops[0]);
      Step(root, t, ops[0], p, made);
      RunKeeps(root, t', if ops[0].CreateVersion? then ops[0].now else clock, ops[1..], p, made);
      assert forall op :: op in ops <==> op == ops[0] || op in ops[1..];
      assert Spared(root, ops, p) <==> !Destroys(root, ops[0], p) && Spared(root, ops[1..], p);
      assert Run(root, t, ops) == Run(root, t', ops[1..]);
    }
  }

  /**
   A reference gives its data back after any later calls, unless one of them destroyed the
   version: then it is never found again.  Destroying it by its reference is such a call.
   */
  lemma KeptUntilDestroyed(root: string, t: Tree<bytes>, parent: string, now: nat, data: bytes, after: seq<Op>)
    requires Create(root, t, parent, now, data).0.Ok? && Increasing(now, after)
    requires IdFits(root, Show(VersionFile(root, parent, now)))
    ensures var (r, t') := Create(root, t, parent, now, data);
            && Get(root, Run(root, t', after), r.value)
               == (if Spared(root, after, VersionFile(root, parent, now)) then Ok(data) else Err(NotFound))
            && Destroys(root, DestroyVersion(r.value), VersionFile(root, parent, now))
  {
    var p := VersionFile(root, parent, now);
    var t' := Create(root, t, parent, now, data).1;
    Created(root, t, parent, now, data);
    ReferenceReturnsExactly(root, t, parent, now, data);
    ChildParts(Joined(root, parent), Format(now));
    RunKeeps(root, t', now, after, p, now);
    CleanIdempotent(Show(p));
  }
}
