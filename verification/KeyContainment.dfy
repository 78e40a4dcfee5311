/**
 Nothing outside the root is touched: every call of the key manager leaves the files there as
 they are, as long as SafeJoin accepts the parents under which versions are made.
 */
module KeyContainment {
  import opened Bytes
  import opened Paths
  import opened PathIds
  import opened FileTree
  import opened KeyManager
  import opened KeyPaths
  import opened KeyRotation

  /** A version is written at or below the root exactly when SafeJoin accepts the parent as it stands. */
  lemma VersionInsideExactly(root: string, t: Tree<File>, parent: string, now: nat, material: bytes)
    requires CreateVersion(root, t, parent, now, material).0.Ok?
    requires root != "" ==> Parse(root) in t.dirs
    ensures Within(Parse(root), Parse(VersionPath(root, parent, now))) <==> SafeJoin(root, parent).Ok?
  {
    CreatedVersion(root, t, parent, now, material);
    VersionInside(root, t, parent, now);
  }

  predicate Contained(root: string, op: Op) {
    op.MakeVersion? ==> SafeJoin(root, op.parent).Ok?
  }

  /** At or below the root, or a directory above it. */
  predicate Inside(root: string, p: Path) {
    Within(Parse(root), p) || p in Ancestors(Parse(root))
  }

  lemma MetadataInside(root: string, parent: string, name: string)
    requires Resolve(root, [parent, name]).Ok? && Resolve(root, [parent, name]).value != ""
    ensures Within(Parse(root), Parse(Resolve(root, [parent, name]).value))
    ensures Within(Parse(root), Parse(JoinPath([Resolve(root, [parent, name]).value, "metadata"])))
  {
    var dir := Under(root, Joined(parent, name));
    ResolveTwo(root, parent, name);
    ParseShow(dir);
    MetadataNormal();
    JoinedChild(Show(dir), "metadata");
    JoinLeads(Show(dir), "metadata");
    WithinChild(Parse(root), dir, "metadata");
  }

  lemma AncestorsInside(root: string, p: Path)
    requires Within(Parse(root), p)
    ensures forall d <- Ancestors(p) :: Inside(root, d)
  {
    var r := Parse(root);
    forall d | d in Ancestors(p)
      ensures Inside(root, d)
    {
      var i :| 0 <= i <= |p.elems| && d == Path(p.rooted, p.elems[..i]);
      if i < |r.elems| {
        assert d.elems == p.elems[..|r.elems|][..i] == r.elems[..i];
      } else {
        assert d.elems[..|r.elems|] == p.elems[..|r.elems|];
        assert forall e :: e in d.elems[|r.elems|..] ==> e in p.elems[|r.elems|..];
      }
    }
  }

  lemma MakeKeyInside(root: string, t: Tree<File>, parent: string, name: string, kind: Kind, p: Path)
    ensures !Within(Parse(root), p) ==> FileAt(CreateKey(root, t, parent, name, kind).1, p) == FileAt(t, p)
    ensures !Inside(root, p) ==> (p in CreateKey(root, t, parent, name, kind).1.dirs <==> p in t.dirs)
  {
    MakeKeyCases(root, t, parent, name, kind);
    var r := Resolve(root, [parent, name]);
    if r.Ok? && r.value != "" {
      MetadataInside(root, parent, name);
      AncestorsInside(root, Parse(r.value));
    }
  }

  lemma MakeVersionInside(root: string, t: Tree<File>, parent: string, now: nat, material: bytes, p: Path)
    requires SafeJoin(root, parent).Ok?
    ensures !Within(Parse(root), p) ==> FileAt(CreateVersion(root, t, parent, now, material).1, p) == FileAt(t, p)
    ensures p in CreateVersion(root, t, parent, now, material).1.dirs <==> p in t.dirs
  {
    MakeVersionWrites(root, t, parent, now, material);
    FormatNormal(now);
    SafeJoinExactly(root, parent);
    WithinChild(Parse(root), Joined(root, parent), Decimal.Format(now));
  }

  lemma DestroyInside(root: string, t: Tree<File>, id: string, p: Path)
    requires !Within(Parse(root), p)
    ensures FileAt(Destroy(root, t, id).1, p) == FileAt(t, p) && (p in Destroy(root, t, id).1.dirs <==> p in t.dirs)
  {
    ResolveOne(root, id);
    ParseShow(KeyDir(root, id));
    EmptyIsDot();
  }

  /** One call. */
  lemma CallStaysInside(root: string, t: Tree<File>, op: Op, p: Path)
    requires Contained(root, op)
    ensures !Within(Parse(root), p) ==> FileAt(Next(root, t, op), p) == FileAt(t, p)
    ensures !Inside(root, p) ==> (p in Next(root, t, op).dirs <==> p in t.dirs)
  {
    match op
    case MakeKey(parent, name, kind) => MakeKeyInside(root, t, parent, name, kind, p);
    case MakeVersion(parent, now, material) => MakeVersionInside(root, t, parent, now, material, p);
    case DestroyVersion(id) =>
      if !Within(Parse(root), p) {
        DestroyInside(root, t, id, p);
      }
  }

  /** Any number of calls: no file outside the root changes, and no directory but the root's own and those above it. */
  lemma {:induction false} RunStaysInside(root: string, t: Tree<File>, ops: seq<Op>, p: Path)
    requires forall op <- ops :: Contained(root, op)
    ensures !Within(Parse(root), p) ==> FileAt(Run(root, t, ops), p) == FileAt(t, p)
    ensures !Inside(root, p) ==> (p in Run(root, t, ops).dirs <==> p in t.dirs)
    decreases |ops|
  {
    if ops != [] {
      var t' := Next(root, t, ops[0]);
      assert ops[0] in ops;
      CallStaysInside(root, t, ops[0], p);
      RunStaysInside(root, t', ops[1..], p);
      assert Run(root, t, ops) == Run(root, t', ops[1..]);
    }
  }
}
