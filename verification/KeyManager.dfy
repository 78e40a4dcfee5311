/**
 The filesystem key manager of keys/filesystem.go: keys are directories with a metadata
 file, versions are files named after the clock, and a ciphertext carries the name of the
 version that sealed it.  AES-GCM is a pair of functions; x509 parsing and JSON are the
 constructors of `File`.
 */
module KeyManager {
  import opened Wrappers
  import opened Bytes
  import opened Strings
  import opened Paths
  import opened FileTree
  import opened Decimal

  datatype Kind = Signing | Encryption

  datatype File = Metadata(kind: Kind) | Dek(key: bytes) | SigningKey(key: bytes)

  datatype Error = BadPath | NotFound | WrongType | NoVersion | Io | BadCiphertext

  const NONCE_SIZE: nat := 12

  /** An authenticated cipher: key, nonce, text and additional data. */
  datatype Aead = Aead(
    seal: (bytes, bytes, bytes, bytes) -> bytes,
    open_: (bytes, bytes, bytes, bytes) -> Option<bytes>)

  ghost predicate Correct(aead: Aead) {
    forall k, n, p, a :: aead.open_(k, n, aead.seal(k, n, p, a), a) == Some(p)
  }

  /** Go strings are byte strings. */
  function ToBytes(s: string): bytes {
    seq(|s|, i requires 0 <= i < |s| => (s[i] as int % 256) as byte)
  }

  function FromBytes(b: bytes): string {
    seq(|b|, i requires 0 <= i < |b| => b[i] as int as char)
  }

  // ---- Paths ----------------------------------------------------------------------------

  function Resolve(root: string, parts: seq<string>): Result<string, PathError> {
    SafeJoin(root, JoinPath(parts))
  }

  function MetadataFor(root: string, t: Tree<File>, parent: string): Result<Kind, Error> {
    match Resolve(root, [parent, "metadata"])
    case Err(_) => Err(BadPath)
    case Ok(pth) =>
      match ReadFile<File>(t, pth)
      case Some(Metadata(kind)) => Ok(kind)
      case _ => Err(NotFound)
  }

  // ---- Keys -----------------------------------------------------------------------------

  /** `createKey`: the answer, and the tree after it. */
  function CreateKey(root: string, t: Tree<File>, parent: string, name: string, kind: Kind)
    : (Result<string, Error>, Tree<File>)
  {
    match Resolve(root, [parent, name])
    case Err(_) => (Err(BadPath), t)
    case Ok(pth) =>
      match MkdirAll(t, pth)
      case None => (Err(Io), t)
      case Some(t') =>
        var metadata := JoinPath([pth, "metadata"]);
        if IsDir(t', metadata) then (Err(Io), t')
        else
          match ReadFile<File>(t', metadata)
          case Some(Metadata(k)) => (if k != kind then Err(WrongType) else Ok(TrimPrefix(pth, root)), t')
          case Some(_) => (Err(WrongType), t')
          case None =>
            match WriteFile(t', metadata, Metadata(kind))
            case None => (Err(Io), t')
            case Some(t'') => (Ok(TrimPrefix(pth, root)), t'')
  }

  /** Where `CreateKeyVersion` writes at clock `now`. */
  function VersionPath(root: string, parent: string, now: nat): string {
    JoinPath([root, parent, Format(now)])
  }

  function VersionFile(kind: Kind, material: bytes): File {
    match kind
    case Signing => SigningKey(material)
    case Encryption => Dek(material)
  }

  function CreateVersion(root: string, t: Tree<File>, parent: string, now: nat, material: bytes)
    : (Result<string, Error>, Tree<File>)
  {
    match MetadataFor(root, t, parent)
    case Err(e) => (Err(e), t)
    case Ok(kind) =>
      match WriteFile(t, VersionPath(root, parent, now), VersionFile(kind, material))
      case None => (Err(Io), t)
      case Some(t') => (Ok(TrimPrefix(VersionPath(root, parent, now), root)), t')
  }

  /** `DestroyKeyVersion`: a missing file is no error. */
  function Destroy(root: string, t: Tree<File>, id: string): (Result<(), Error>, Tree<File>) {
    match Resolve(root, [id])
    case Err(_) => (Err(BadPath), t)
    case Ok(pth) =>
      match Remove(t, pth)
      case Removed(t') => (Ok(()), t')
      case Missing => (Ok(()), t)
      case Failed => (Err(Io), t)
  }

  // ---- Encryption -----------------------------------------------------------------------

  /** The greatest name that is not "metadata". */
  ghost predicate IsLatest(names: set<string>, latest: Option<string>) {
    match latest
    case None => names <= {"metadata"}
    case Some(m) => m in names && m != "metadata" && forall n <- names :: n == m || n == "metadata" || Less(n, m)
  }

  lemma LatestUnique(names: set<string>, a: Option<string>, b: Option<string>)
    requires IsLatest(names, a) && IsLatest(names, b)
    ensures a == b
  {
    if a.Some? && b.Some? {
      LessTotal(a.value, b.value);
    }
  }

  function Sealed(aead: Aead, version: string, key: bytes, nonce: bytes, plaintext: bytes, aad: bytes): bytes {
    ToBytes(version + ":") + (nonce + aead.seal(key, nonce, plaintext, aad))
  }

  /** The version, in which directory, and the key that `Encrypt` would use. */
  ghost predicate Encrypts(root: string, t: Tree<File>, keyID: string, dir: Path, version: string, key: bytes) {
    && Resolve(root, [keyID]).Ok? && Resolve(root, [keyID]).value != ""
    && dir == Parse(Resolve(root, [keyID]).value) && dir in t.dirs
    && IsLatest(Entries(t, dir), Some(version))
    && ReadFile(t, JoinPath([Resolve(root, [keyID]).value, version])) == Some(Dek(key))
  }

  /** What stands before and after the first ':'. */
  function SplitVersion(ciphertext: bytes): Option<(bytes, bytes)> {
    if ciphertext == [] then None
    else if ciphertext[0] == ':' as int as byte then Some(([], ciphertext[1..]))
    else
      match SplitVersion(ciphertext[1..])
      case None => None
      case Some((v, rest)) => Some(([ciphertext[0]] + v, rest))
  }

  function Decrypt(root: string, t: Tree<File>, aead: Aead, keyID: string, ciphertext: bytes, aad: bytes)
    : Result<bytes, Error>
  {
    match SplitVersion(ciphertext)
    case None => Err(BadCiphertext)
    case Some((version, rest)) =>
      match Resolve(root, [keyID, FromBytes(version)])
      case Err(_) => Err(BadPath)
      case Ok(pth) =>
        match ReadFile<File>(t, pth)
        case Some(Dek(key)) =>
          if |rest| < NONCE_SIZE then Err(BadCiphertext)
          else
            (match aead.open_(key, rest[..NONCE_SIZE], rest[NONCE_SIZE..], aad)
             case None => Err(BadCiphertext)
             case Some(plaintext) => Ok(plaintext))
        case _ => Err(NotFound)
  }

  // ---- Signing --------------------------------------------------------------------------

  /** A listed version: the name it is shown under, its file and its key. */
  datatype Version = Version(name: string, file: Path, key: bytes)

  /** Everything below `dir` that the walk takes for a version. */
  function Walked(t: Tree<File>, dir: Path): set<Path> {
    set p | p in t.files && p.rooted == dir.rooted && dir.elems <= p.elems && p.elems != [] && Last(p) != "metadata"
  }

  ghost predicate Descending(versions: seq<Version>) {
    forall i, j :: 0 <= i < j < |versions| ==> !Less(versions[i].name, versions[j].name)
  }

  function Insert(v: Version, sorted: seq<Version>): seq<Version> {
    if sorted == [] || !Less(v.name, sorted[0].name) then [v] + sorted
    else [sorted[0]] + Insert(v, sorted[1..])
  }

  /** What the sort by descending name makes of the versions. */
  function Sort(versions: seq<Version>): seq<Version> {
    if versions == [] then [] else Insert(versions[0], Sort(versions[1..]))
  }

  lemma {:induction false} InsertKeeps(v: Version, sorted: seq<Version>)
    requires Descending(sorted)
    ensures Descending(Insert(v, sorted)) && multiset(Insert(v, sorted)) == multiset(sorted) + multiset{v}
  {
    if sorted == [] || !Less(v.name, sorted[0].name) {
      forall j | 0 <= j < |sorted|
        ensures !Less(v.name, sorted[j].name)
      {
        NotLessDown(v, sorted, j);
      }
    } else {
      InsertKeeps(v, sorted[1..]);
      assert sorted == [sorted[0]] + sorted[1..];
      HeadStays(v, sorted, Insert(v, sorted[1..]));
    }
  }

  lemma HeadStays(v: Version, sorted: seq<Version>, tail: seq<Version>)
    requires Descending(sorted) && sorted != [] && Less(v.name, sorted[0].name)
    requires Descending(tail) && multiset(tail) == multiset(sorted[1..]) + multiset{v}
    ensures Descending([sorted[0]] + tail)
  {
    LessTotal(v.name, sorted[0].name);
    forall j | 0 <= j < |tail|
      ensures !Less(sorted[0].name, tail[j].name)
    {
      assert tail[j] in multiset(tail);
      if tail[j] != v {
        assert tail[j] in multiset(sorted[1..]);
      }
    }
  }

  lemma NotLessDown(v: Version, sorted: seq<Version>, j: nat)
    requires Descending(sorted) && j < |sorted| && !Less(v.name, sorted[0].name)
    ensures !Less(v.name, sorted[j].name)
  {
    if j > 0 && Less(v.name, sorted[j].name) {
      LessTotal(v.name, sorted[0].name);
      LessTotal(sorted[0].name, sorted[j].name);
      if v.name != sorted[0].name && sorted[0].name != sorted[j].name {
        LessTransitive(v.name, sorted[j].name, sorted[0].name);
      }
    }
  }

  lemma {:induction false} SortSorts(versions: seq<Version>)
    ensures Descending(Sort(versions)) && multiset(Sort(versions)) == multiset(versions)
  {
    if versions != [] {
      SortSorts(versions[1..]);
      InsertKeeps(versions[0], Sort(versions[1..]));
      assert versions == [versions[0]] + versions[1..];
    }
  }

  /** How a file is listed: under its path without the root, with the signing key in it. */
  predicate Listing(root: string, t: Tree<File>, v: Version) {
    v.file in t.files && t.files[v.file] == SigningKey(v.key) && v.name == TrimPrefix(Show(v.file), root)
  }

  /** Each of the files is listed once, and nothing else. */
  ghost predicate Lists(root: string, t: Tree<File>, files: set<Path>, versions: seq<Version>) {
    && |versions| == |files|
    && (forall v <- versions :: v.file in files && Listing(root, t, v))
    && (forall p <- files :: exists v :: v in versions && v.file == p)
  }

  lemma ListsMore(root: string, t: Tree<File>, files: set<Path>, versions: seq<Version>, v: Version)
    requires Lists(root, t, files, versions) && Listing(root, t, v) && v.file !in files
    ensures Lists(root, t, files + {v.file}, versions + [v])
  {
    forall p | p in files + {v.file}
      ensures exists w :: w in versions + [v] && w.file == p
    {
      if p == v.file {
        assert (versions + [v])[|versions|] == v;
      } else {
        var w :| w in versions && w.file == p;
        assert w in versions + [v];
      }
    }
  }

  lemma ListsSorted(root: string, t: Tree<File>, files: set<Path>, versions: seq<Version>)
    requires Lists(root, t, files, versions)
    ensures Lists(root, t, files, Sort(versions))
  {
    SortSorts(versions);
    assert |multiset(versions)| == |multiset(Sort(versions))|;
    assert forall v :: v in versions <==> v in multiset(versions);
    assert forall v :: v in Sort(versions) <==> v in multiset(Sort(versions));
  }

  /** The file is read through the root and parsed. */
  predicate Readable(root: string, t: Tree<File>, p: Path) {
    p in t.files && t.files[p].SigningKey? && Within(Parse(root), p)
  }

  /** `SigningKeyVersions` succeeds on this directory. */
  predicate Listable(root: string, t: Tree<File>, parent: string) {
    var dir := Parse(JoinPath([root, parent]));
    && MetadataFor(root, t, parent) == Ok(Signing)
    && JoinPath([root, parent]) != ""
    && (dir in t.dirs || dir in t.files)
    && (forall p <- Walked(t, dir) :: Readable(root, t, p))
  }

  // ---- The manager ----------------------------------------------------------------------

  class Filesystem {
    const root: string
    const aead: Aead
    var t: Tree<File>

    constructor (root: string, aead: Aead, t: Tree<File>)
      ensures this.root == root && this.aead == aead && this.t == t
    {
      this.root, this.aead, this.t := root, aead, t;
    }

    method CreateKeyOf(parent: string, name: string, kind: Kind) returns (r: Result<string, Error>)
      modifies this
      ensures (r, t) == CreateKey(root, old(t), parent, name, kind)
    {
      var pth := Resolve(root, [parent, name]);
      if pth.Err? {
        return Err(BadPath);
      }
      var made := MkdirAll(t, pth.value);
      if made.None? {
        return Err(Io);
      }
      t := made.value;
      var metadata := JoinPath([pth.value, "metadata"]);
      if IsDir(t, metadata) {
        return Err(Io);
      }
      var b := ReadFile(t, metadata);
      if b.Some? {
        if !b.value.Metadata? || b.value.kind != kind {
          return Err(WrongType);
        }
        return Ok(TrimPrefix(pth.value, root));
      }
      var written := WriteFile(t, metadata, Metadata(kind));
      if written.None? {
        return Err(Io);
      }
      t := written.value;
      return Ok(TrimPrefix(pth.value, root));
    }

    /** `now` is what the clock reads and `material` what the key generator gives. */
    method CreateKeyVersion(parent: string, now: nat, material: bytes) returns (r: Result<string, Error>)
      modifies this
      ensures (r, t) == CreateVersion(root, old(t), parent, now, material)
    {
      var metadata := MetadataFor(root, t, parent);
      if metadata.Err? {
        return Err(metadata.error);
      }
      var file := if metadata.value.Signing? then SigningKey(material) else Dek(material);
      var pth := VersionPath(root, parent, now);
      var written := WriteFile(t, pth, file);
      if written.None? {
        return Err(Io);
      }
      t := written.value;
      return Ok(TrimPrefix(pth, root));
    }

    method DestroyKeyVersion(id: string) returns (r: Result<(), Error>)
      modifies this
      ensures (r, t) == Destroy(root, old(t), id)
    {
      var pth := Resolve(root, [id]);
      if pth.Err? {
        return Err(BadPath);
      }
      var removed := Remove(t, pth.value);
      if removed.Failed? {
        return Err(Io);
      }
      if removed.Removed? {
        t := removed.tree;
      }
      return Ok(());
    }

    /** The loop over the directory entries that skips "metadata" and keeps the greatest name. */
    method FindLatest(infos: seq<string>) returns (latest: Option<string>)
      ensures IsLatest((set n | n in infos), latest)
    {
      latest := None;
      var i := 0;
      while i < |infos|
        invariant 0 <= i <= |infos|
        invariant latest.None? ==> forall k :: 0 <= k < i ==> infos[k] == "metadata"
        invariant latest.Some? ==> latest.value in infos && latest.value != "metadata"
                                   && forall k :: 0 <= k < i ==>
                                        infos[k] == latest.value || infos[k] == "metadata"
                                        || Less(infos[k], latest.value)
      {
        var name := infos[i];
        if name != "metadata" {
          if latest.None? || Less(latest.value, name) {
            if latest.Some? {
              forall k | 0 <= k < i && Less(infos[k], latest.value)
                ensures Less(infos[k], name)
              {
                LessTransitive(infos[k], latest.value, name);
              }
            }
            latest := Some(name);
          } else {
            LessTotal(latest.value, name);
          }
        }
        i := i + 1;
      }
    }

    /** `os.ReadDir`; any order will do. */
    method ReadDir(dir: Path) returns (infos: seq<string>)
      ensures (set n | n in infos) == Entries(t, dir)
    {
      infos := [];
      var todo := Entries(t, dir);
      while todo != {}
        invariant todo <= Entries(t, dir)
        invariant forall n :: n in infos <==> n in Entries(t, dir) && n !in todo
        decreases |todo|
      {
        var n :| n in todo;
        todo := todo - {n};
        infos := infos + [n];
      }
    }

    method Encrypt(keyID: string, plaintext: bytes, aad: bytes, nonce: bytes) returns (r: Result<bytes, Error>)
      requires |nonce| == NONCE_SIZE
      ensures r.Ok? <==> exists dir, version, key :: Encrypts(root, t, keyID, dir, version, key)
      ensures forall dir, version, key | Encrypts(root, t, keyID, dir, version, key) ::
                r == Ok(Sealed(aead, version, key, nonce, plaintext, aad))
    {
      var pth := Resolve(root, [keyID]);
      if pth.Err? {
        return Err(BadPath);
      }
      if !IsDir(t, pth.value) {
        return Err(NotFound);
      }
      var infos := ReadDir(Parse(pth.value));
      var latest := FindLatest(infos);
      forall version, key, dir | Encrypts(root, t, keyID, dir, version, key)
        ensures latest == Some(version)
      {
        LatestUnique(Entries(t, dir), latest, Some(version));
      }
      if latest.None? {
        return Err(NoVersion);
      }
      var dek := ReadFile(t, JoinPath([pth.value, latest.value]));
      if dek.None? || !dek.value.Dek? {
        return Err(NotFound);
      }
      assert Encrypts(root, t, keyID, Parse(pth.value), latest.value, dek.value.key);
      var ciphertext := nonce + aead.seal(dek.value.key, nonce, plaintext, aad);
      return Ok(ToBytes(latest.value + ":") + ciphertext);
    }

    /** The walk below a directory; the first file that cannot be read or parsed ends it. */
    method WalkVersions(dir: Path) returns (r: Option<seq<Version>>)
      ensures r.Some? <==> forall p <- Walked(t, dir) :: Readable(root, t, p)
      ensures r.Some? ==> Lists(root, t, Walked(t, dir), r.value)
    {
      var files := Walked(t, dir);
      var versions: seq<Version> := [];
      var done: set<Path> := {};
      while files - done != {}
        invariant done <= files
        invariant Lists(root, t, done, versions)
        invariant forall p <- done :: Readable(root, t, p)
        decreases files - done
      {
        var p :| p in files - done;
        if !Readable(root, t, p) {
          return None;
        }
        var v := Version(TrimPrefix(Show(p), root), p, t.files[p].key);
        ListsMore(root, t, done, versions, v);
        versions := versions + [v];
        done := done + {p};
      }
      return Some(versions);
    }

    /** The versions below a signing key, greatest name first. */
    method SigningKeyVersions(parent: string) returns (r: Result<seq<Version>, Error>)
      ensures r.Ok? <==> Listable(root, t, parent)
      ensures r.Ok? ==> Descending(r.value) && Lists(root, t, Walked(t, Parse(JoinPath([root, parent]))), r.value)
      ensures r.Ok? ==> forall v <- r.value ::
                FileAt(t, v.file) == Some(SigningKey(v.key)) && v.name == TrimPrefix(Show(v.file), root)
    {
      var metadata := MetadataFor(root, t, parent);
      if metadata.Err? {
        return Err(metadata.error);
      }
      if metadata.value != Signing {
        return Err(WrongType);
      }
      var pth := JoinPath([root, parent]);
      var dir := Parse(pth);
      if pth == "" || (dir !in t.dirs && dir !in t.files) {
        return Err(NotFound);
      }
      var versions := WalkVersions(dir);
      if versions.None? {
        return Err(NotFound);
      }
      SortSorts(versions.value);
      ListsSorted(root, t, Walked(t, dir), versions.value);
      return Ok(Sort(versions.value));
    }
  }
}
