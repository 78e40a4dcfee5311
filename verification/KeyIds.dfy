/**
 Exactly which ids of keys and of versions lead back to what was made, whatever the root.
 */
module KeyIds {
  import opened Wrappers
  import opened Strings
  import opened Paths
  import opened PathIds
  import opened IdRoots
  import opened FileTree
  import opened Bytes
  import opened Decimal
  import opened KeyManager
  import opened KeyPaths

  /** The id of a key, if there may be one under this name, leads back to its directory. */
  predicate KeyIdReturns(root: string, parent: string, name: string) {
    match Resolve(root, [parent, name])
    case Err(_) => true
    case Ok(pth) => Resolve(root, [TrimPrefix(pth, root)]) == Ok(pth)
  }

  lemma TidyReturns(root: string, parent: string, name: string)
    requires Tidy(root)
    ensures KeyIdReturns(root, parent, name)
  {
    ResolveTwo(root, parent, name);
    if Resolve(root, [parent, name]).Ok? {
      if root == "" && parent == "" && name == "" {
        EmptyIsDot();
        ResolveOne("", "");
      } else {
        IdResolves(root, Under(root, Joined(parent, name)));
      }
    }
  }

  lemma ReturnsIfLeads(root: string, id: string, p: Path)
    requires root != "" && Canonical(p) && Within(Parse(root), p)
    ensures Resolve(root, [id]) == Ok(Show(p)) <==> KeyDir(root, id) == p
  {
    ResolveOne(root, id);
    ParseShow(p);
    ParseShow(KeyDir(root, id));
  }

  /** Whether the id of a key leads back, for every root. */
  lemma KeyIdReturnsExactly(root: string, parent: string, name: string)
    requires Resolve(root, [parent, name]).Ok?
    ensures KeyIdReturns(root, parent, name) <==> IdFits(root, Resolve(root, [parent, name]).value)
  {
    var pth := Resolve(root, [parent, name]).value;
    if Tidy(root) {
      TidyReturns(root, parent, name);
      if !(root <= pth) {
        TidyIsPrefix(root, parent, name);
      }
    } else {
      var p := Under(root, Joined(parent, name));
      ResolveTwo(root, parent, name);
      IdLeadsExactly(root, p);
      ReturnsIfLeads(root, TrimPrefix(pth, root), p);
    }
  }

  /** A tidy root stands in front of every path below it. */
  lemma TidyIsPrefix(root: string, parent: string, name: string)
    requires Tidy(root) && Resolve(root, [parent, name]).Ok?
    ensures root <= Resolve(root, [parent, name]).value
  {
    var p := Under(root, Joined(parent, name));
    ResolveTwo(root, parent, name);
    if root != "" {
      TidyInFront(root, p);
    }
  }

  /**
   The id of a version leads back to the file that was written, for every root, exactly when
   SafeJoin accepts the parent as it stands and the root fits: the metadata file is looked for
   under the cleaned parent, but the version is written under the parent as it stands.
   */
  lemma VersionIdReturnsExactly(root: string, t: Tree<File>, parent: string, now: nat, material: bytes)
    requires CreateVersion(root, t, parent, now, material).0.Ok?
    requires root != "" ==> Parse(root) in t.dirs
    ensures Resolve(root, [CreateVersion(root, t, parent, now, material).0.value]) == Ok(VersionPath(root, parent, now))
            <==> SafeJoin(root, parent).Ok? && IdFits(root, VersionPath(root, parent, now))
  {
    if root == "" {
      VersionIdRoundTripsExactly(root, t, parent, now, material);
    } else {
      var id := CreateVersion(root, t, parent, now, material).0.value;
      var p := Child(Joined(root, parent), Format(now));
      CreatedVersion(root, t, parent, now, material);
      VersionPathLeads(root, parent, now);
      VersionInside(root, t, parent, now);
      if Within(Parse(root), p) {
        ReturnsIfLeads(root, id, p);
        IdLeadsExactly(root, p);
      } else if Resolve(root, [id]) == Ok(Show(p)) {
        ShownWithin(root, id, p);
      }
    }
  }

  /** Under a root that names a directory further down, all ids lead back exactly when the root was given cleaned. */
  lemma KeyIdsReturnExactly(root: string)
    requires Parse(root).elems != [] && ".." !in Parse(root).elems
    ensures (forall parent, name :: KeyIdReturns(root, parent, name)) <==> Clean(root) == root
  {
    EmptyIsDot();
    if Clean(root) == root {
      forall parent, name
        ensures KeyIdReturns(root, parent, name)
      {
        TidyReturns(root, parent, name);
      }
    } else {
      UncleanRoot(root);
    }
  }

  /** The key that is the root itself: its id is the whole path, which is then looked for below the root. */
  lemma UncleanRoot(root: string)
    requires Parse(root).elems != [] && ".." !in Parse(root).elems && Clean(root) != root
    ensures !KeyIdReturns(root, "", "")
  {
    EmptyIsDot();
    ParseCanonical(root);
    CleanShrinks(root);
    assert Walk(Parse(root).rooted, Parse(root).elems, []) == Parse(root).elems;
    ResolveTwo(root, "", "");
    assert Resolve(root, ["", ""]) == Ok(Clean(root));
    assert !(root <= Clean(root));
    assert Parse(root).elems[0] in Parse(root).elems;
    KeyIdReturnsExactly(root, "", "");
  }

  /** Under the root "." the ids that lead back are those of the directories that do not start with a dot. */
  lemma DotIdsReturnExactly(parent: string, name: string)
    requires Resolve(".", [parent, name]).Ok?
    ensures KeyIdReturns(".", parent, name) <==>
            var pth := Resolve(".", [parent, name]).value; pth == "." || !("." <= pth)
  {
    EmptyIsDot();
    KeyIdReturnsExactly(".", parent, name);
  }
}
