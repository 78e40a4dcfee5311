/**
 When the calls of the key manager succeed, what they answer and what the tree is after them,
 told by the files and directories that are there.
 */
module KeyAnswers {
  import opened Wrappers
  import opened Bytes
  import opened Strings
  import opened Decimal
  import opened Paths
  import opened PathIds
  import opened FileTree
  import opened KeyManager
  import opened KeyPaths

  // ---- createKey --------------------------------------------------------------------------

  /** The directory of the key that a call asks for. */
  function AskedDir(root: string, parent: string, name: string): Path {
    Under(root, Joined(parent, name))
  }

  /** Its path, and that of its metadata; there is none for three empty names. */
  lemma AskedPath(root: string, parent: string, name: string)
    ensures Canonical(AskedDir(root, parent, name))
    ensures Resolve(root, [parent, name]).Ok? <==> Within(Parse(root), AskedDir(root, parent, name))
    ensures Resolve(root, [parent, name]).Ok? ==>
              var pth, dir := Resolve(root, [parent, name]).value, AskedDir(root, parent, name);
              && (pth == "" <==> root == "" && parent == "" && name == "")
              && (pth != "" ==>
                    && pth == Show(dir) && Parse(pth) == dir
                    && JoinPath([pth, "metadata"]) != ""
                    && Parse(JoinPath([pth, "metadata"])) == Child(dir, "metadata"))
  {
    var dir := AskedDir(root, parent, name);
    ResolveTwo(root, parent, name);
    ParseShow(dir);
    ShownNotEmpty(dir);
    MetadataNormal();
    JoinedChild(Show(dir), "metadata");
    JoinLeads(Show(dir), "metadata");
    ShownNotEmpty(Child(dir, "metadata"));
  }

  /** What the call does once the directory is there. */
  lemma KeyInDirectory(root: string, t: Tree<File>, parent: string, name: string, kind: Kind)
    requires Within(Parse(root), AskedDir(root, parent, name)) && !(root == "" && parent == "" && name == "")
    requires Passable(t, AskedDir(root, parent, name))
    ensures var dir := AskedDir(root, parent, name);
            var m, t1 := Child(dir, "metadata"), t.(dirs := t.dirs + Ancestors(dir));
            CreateKey(root, t, parent, name, kind)
            == if m in t.dirs then (Err(Io), t1)
               else if m in t.files && t.files[m] != Metadata(kind) then (Err(WrongType), t1)
               else (Ok(TrimPrefix(Show(dir), root)), t1.(files := t.files[m := Metadata(kind)]))
  {
    var dir := AskedDir(root, parent, name);
    var m, t1 := Child(dir, "metadata"), t.(dirs := t.dirs + Ancestors(dir));
    AskedPath(root, parent, name);
    var pth := Resolve(root, [parent, name]).value;
    MkdirAllExactly(t, pth);
    SelfAncestor(dir);
    ChildNoAncestor(dir, "metadata");
    if m !in t.dirs {
      WrittenInto(t1, JoinPath([pth, "metadata"]), dir, "metadata", Metadata(kind));
      assert m in t.files && t.files[m] == Metadata(kind) ==> t.files[m := Metadata(kind)] == t.files;
    }
  }

  /** And what it answers otherwise. */
  lemma KeyNotInDirectory(root: string, t: Tree<File>, parent: string, name: string, kind: Kind)
    requires var dir := AskedDir(root, parent, name);
             !Within(Parse(root), dir) || (root == "" && parent == "" && name == "") || !Passable(t, dir)
    ensures CreateKey(root, t, parent, name, kind)
            == (Err(if Within(Parse(root), AskedDir(root, parent, name)) then Io else BadPath), t)
  {
    AskedPath(root, parent, name);
    if Resolve(root, [parent, name]).Ok? && Resolve(root, [parent, name]).value != "" {
      MkdirAllExactly(t, Resolve(root, [parent, name]).value);
    }
  }

  /**
   A key is made, or found, exactly when its directory is inside the root, no file is in the way,
   and what stands under "metadata", if anything does, is metadata of the same kind.  Its
   directory is there afterwards with that metadata, and no other file has changed.
   */
  lemma KeyMadeExactly(root: string, t: Tree<File>, parent: string, name: string, kind: Kind)
    ensures var dir := AskedDir(root, parent, name);
            var m := Child(dir, "metadata");
            var made := CreateKey(root, t, parent, name, kind);
            && (made.0.Ok? <==>
                  && Within(Parse(root), dir) && !(root == "" && parent == "" && name == "") && Passable(t, dir)
                  && m !in t.dirs && (m in t.files ==> t.files[m] == Metadata(kind)))
            && (made.0.Ok? ==>
                  && made.0.value == TrimPrefix(Show(dir), root)
                  && made.1 == Tree(t.files[m := Metadata(kind)], t.dirs + Ancestors(dir)))
            && (made.0.Err? ==> made.1.files == t.files && t.dirs <= made.1.dirs)
            && (made.0 == Err(BadPath) <==> !Within(Parse(root), dir))
            && (made.0 == Err(WrongType) <==>
                  && Within(Parse(root), dir) && !(root == "" && parent == "" && name == "") && Passable(t, dir)
                  && m !in t.dirs && m in t.files && t.files[m] != Metadata(kind))
  {
    var dir := AskedDir(root, parent, name);
    if Within(Parse(root), dir) && !(root == "" && parent == "" && name == "") && Passable(t, dir) {
      KeyInDirectory(root, t, parent, name, kind);
    } else {
      KeyNotInDirectory(root, t, parent, name, kind);
    }
  }

  /** A key that is there is found again: the same id, and nothing changes. With another kind it is refused. */
  lemma KeyMadeAgain(root: string, t: Tree<File>, parent: string, name: string, kind: Kind, other: Kind)
    requires CreateKey(root, t, parent, name, kind).0.Ok?
    ensures var made := CreateKey(root, t, parent, name, kind);
            CreateKey(root, made.1, parent, name, other) == if other == kind then made else (Err(WrongType), made.1)
  {
    var dir := AskedDir(root, parent, name);
    var t' := CreateKey(root, t, parent, name, kind).1;
    KeyMadeExactly(root, t, parent, name, kind);
    ChildNoAncestor(dir, "metadata");
    assert t'.dirs + Ancestors(dir) == t'.dirs;
    assert t'.files[Child(dir, "metadata") := Metadata(kind)] == t'.files;
    KeyInDirectory(root, t', parent, name, other);
  }

  // ---- CreateKeyVersion ---------------------------------------------------------------------

  /** The metadata that counts for a parent. */
  lemma MetadataForExactly(root: string, t: Tree<File>, parent: string, kind: Kind)
    ensures var m := Child(KeyDir(root, parent), "metadata");
            && (MetadataFor(root, t, parent) == Ok(kind)
                <==> Within(Parse(root), m) && FileAt(t, m) == Some(Metadata(kind)))
            && (MetadataFor(root, t, parent) == Err(BadPath) <==> !Within(Parse(root), m))
            && (MetadataFor(root, t, parent).Err? ==> MetadataFor(root, t, parent).error in {BadPath, NotFound})
  {
    var m := Child(KeyDir(root, parent), "metadata");
    ResolveTwo(root, parent, "metadata");
    MetadataNormal();
    JoinedChild(parent, "metadata");
    UnderChild(root, Parse(parent), "metadata");
    ParseShow(m);
    ShownNotEmpty(m);
  }

  /** The write at the parent as it stands. */
  lemma VersionWritten(root: string, t: Tree<File>, parent: string, now: nat, f: File)
    ensures var p := Child(Joined(root, parent), Format(now));
            && VersionPath(root, parent, now) == Show(p)
            && WriteFile(t, VersionPath(root, parent, now), f)
               == if Joined(root, parent) in t.dirs && p !in t.dirs then Some(t.(files := t.files[p := f])) else None
  {
    var p := Child(Joined(root, parent), Format(now));
    VersionPathLeads(root, parent, now);
    ShownNotEmpty(p);
    WrittenInto(t, Show(p), Joined(root, parent), Format(now), f);
  }

  /**
   A version is made exactly when there is metadata under the key id that the parent is, and the
   directory that the parent leads to from the root is there, with no directory under the version's
   name.  The new file holds the material that was generated, as a key of the metadata's kind, and
   nothing else changes.
   */
  lemma VersionMadeExactly(root: string, t: Tree<File>, parent: string, now: nat, material: bytes)
    ensures var m, p := Child(KeyDir(root, parent), "metadata"), Child(Joined(root, parent), Format(now));
            var made := CreateVersion(root, t, parent, now, material);
            && (made.0.Ok? <==>
                  && Within(Parse(root), m) && m in t.files && t.files[m].Metadata?
                  && Joined(root, parent) in t.dirs && p !in t.dirs)
            && (made.0.Ok? ==> made.0.value == TrimPrefix(Show(p), root))
            && (made.0.Ok? && t.files[m] == Metadata(Signing) ==>
                  made.1 == t.(files := t.files[p := SigningKey(material)]))
            && (made.0.Ok? && t.files[m] == Metadata(Encryption) ==>
                  made.1 == t.(files := t.files[p := Dek(material)]))
            && (made.0.Err? ==> made.1 == t)
            && (made.0 == Err(BadPath) <==> !Within(Parse(root), m))
            && (made.0 == Err(NotFound) <==> Within(Parse(root), m) && !(m in t.files && t.files[m].Metadata?))
  {
    var m := Child(KeyDir(root, parent), "metadata");
    if Within(Parse(root), m) && m in t.files && t.files[m].Metadata? {
      VersionOfKind(root, t, parent, now, material, t.files[m].kind);
    } else {
      NoMetadata(root, t, parent, now, material);
    }
  }

  lemma VersionOfKind(root: string, t: Tree<File>, parent: string, now: nat, material: bytes, kind: Kind)
    requires var m := Child(KeyDir(root, parent), "metadata");
             Within(Parse(root), m) && FileAt(t, m) == Some(Metadata(kind))
    ensures var p := Child(Joined(root, parent), Format(now));
            var f := if kind.Signing? then SigningKey(material) else Dek(material);
            CreateVersion(root, t, parent, now, material)
            == if Joined(root, parent) in t.dirs && p !in t.dirs
               then (Ok(TrimPrefix(Show(p), root)), t.(files := t.files[p := f])) else (Err(Io), t)
  {
    MetadataForExactly(root, t, parent, kind);
    VersionWritten(root, t, parent, now, if kind.Signing? then SigningKey(material) else Dek(material));
  }

  lemma NoMetadata(root: string, t: Tree<File>, parent: string, now: nat, material: bytes)
    requires var m := Child(KeyDir(root, parent), "metadata");
             !(Within(Parse(root), m) && m in t.files && t.files[m].Metadata?)
    ensures CreateVersion(root, t, parent, now, material)
            == (Err(if Within(Parse(root), Child(KeyDir(root, parent), "metadata")) then NotFound else BadPath), t)
  {
    MetadataForExactly(root, t, parent, Signing);
    MetadataForExactly(root, t, parent, Encryption);
  }

  // ---- DestroyKeyVersion --------------------------------------------------------------------

  /**
   Destroying succeeds exactly when the id is accepted and there is nothing to remove or what is
   there can be removed: a file, or a directory with nothing in it.  Then nothing is left there;
   nothing else changes, and nothing at all when it fails.
   */
  lemma DestroyedExactly(root: string, t: Tree<File>, id: string)
    ensures var p, done := KeyDir(root, id), Destroy(root, t, id);
            && (done.0 == Err(BadPath) <==> !Within(Parse(root), p))
            && (done.0.Ok? <==> Within(Parse(root), p) && ((root == "" && id == "") || Removable(t, p)))
            && (done.0.Err? || (root == "" && id == "") ==> done.1 == t)
            && (done.0.Ok? && !(root == "" && id == "") ==>
                  done.1 == if p in t.files then Tree(t.files - {p}, t.dirs) else Tree(t.files, t.dirs - {p}))
  {
    var p := KeyDir(root, id);
    ResolveOne(root, id);
    if Resolve(root, [id]).Ok? && !(root == "" && id == "") {
      ParseShow(p);
      ShownNotEmpty(p);
      RemovedExactly(t, Show(p));
      assert p !in t.dirs ==> t.dirs - {p} == t.dirs;
    }
  }

  // ---- SigningKeyVersions -------------------------------------------------------------------

  /**
   The versions of a key are listed exactly when its metadata says that it is a signing key, its
   directory is there, and every file below it, at any depth, that is no metadata is a signing key
   inside the root.
   */
  lemma ListableExactly(root: string, t: Tree<File>, parent: string)
    ensures var m, dir := Child(KeyDir(root, parent), "metadata"), Joined(root, parent);
            Listable(root, t, parent) <==>
              && Within(Parse(root), m) && FileAt(t, m) == Some(Metadata(Signing))
              && !(root == "" && parent == "") && (dir in t.dirs || dir in t.files)
              && forall p <- t.files | Below(dir, p) && Last(p) != "metadata" ::
                   Within(Parse(root), p) && t.files[p].SigningKey?
  {
    var dir := Joined(root, parent);
    MetadataForExactly(root, t, parent, Signing);
    ListedDir(root, parent);
    forall p
      ensures p in Walked(t, dir) <==> p in t.files && Below(dir, p) && Last(p) != "metadata"
    {
      WalkedExactly(t, dir, p);
    }
  }

  lemma ListedDir(root: string, parent: string)
    ensures JoinPath([root, parent]) == "" <==> root == "" && parent == ""
    ensures root != "" || parent != "" ==> Parse(JoinPath([root, parent])) == Joined(root, parent)
  {
    JoinLeads(root, parent);
    ShownNotEmpty(Joined(root, parent));
    ParseShow(Joined(root, parent));
  }

  /** The walk takes every file below a directory, however deep, but the metadata. */
  lemma WalkedExactly(t: Tree<File>, dir: Path, p: Path)
    ensures p in Walked(t, dir) <==> p in t.files && Below(dir, p) && Last(p) != "metadata"
  {
    BelowExactly(dir, p);
  }

  /** A path that goes on from the directory, or is the directory itself. */
  ghost predicate Below(dir: Path, p: Path) {
    p.elems != [] && exists rest :: p == Path(dir.rooted, dir.elems + rest)
  }

  lemma BelowExactly(dir: Path, p: Path)
    ensures Below(dir, p) <==> p.elems != [] && p.rooted == dir.rooted && dir.elems <= p.elems
  {
    if dir.elems <= p.elems && p.rooted == dir.rooted {
      assert p == Path(dir.rooted, dir.elems + p.elems[|dir.elems|..]);
    }
  }
}
