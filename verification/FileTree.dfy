/**
 The files and directories under the managers of keys/filesystem.go and
 secrets/filesystem.go, as the os package shows them: a map from lexical paths to
 contents.  There are no symbolic links, no permissions and no other processes.
 */
module FileTree {
  import opened Wrappers
  import opened Paths

  datatype Tree<+F> = Tree(files: map<Path, F>, dirs: set<Path>)

  function Child(p: Path, e: string): Path {
    Path(p.rooted, p.elems + [e])
  }

  function Last(p: Path): string
    requires p.elems != []
  {
    p.elems[|p.elems| - 1]
  }

  function Parent(p: Path): Path
    requires p.elems != []
  {
    Path(p.rooted, p.elems[..|p.elems| - 1])
  }

  /** `p` and everything above it. */
  function Ancestors(p: Path): set<Path> {
    set i | 0 <= i <= |p.elems| :: Path(p.rooted, p.elems[..i])
  }

  /** The file at `p`, if there is one. */
  function FileAt<F>(t: Tree<F>, p: Path): Option<F> {
    if p in t.files then Some(t.files[p]) else None
  }

  /** `os.ReadFile`; every call on the empty path fails as on a missing file. */
  function ReadFile<F>(t: Tree<F>, s: string): Option<F> {
    if s == "" then None else FileAt(t, Parse(s))
  }

  /** Some other reason than absence keeps a file from being read: it is a directory. */
  predicate IsDir<F>(t: Tree<F>, s: string) {
    s != "" && Parse(s) in t.dirs
  }

  /** `os.WriteFile`: creates or overwrites a file in a directory that exists; None is its error. */
  function WriteFile<F>(t: Tree<F>, s: string, f: F): Option<Tree<F>> {
    if s == "" then None
    else
      var p := Parse(s);
      if p.elems == [] || p in t.dirs || Parent(p) !in t.dirs then None
      else Some(t.(files := t.files[p := f]))
  }

  /** `os.MkdirAll`; None is its error, a file in the way. */
  function MkdirAll<F>(t: Tree<F>, s: string): Option<Tree<F>> {
    if s == "" || Ancestors(Parse(s)) * t.files.Keys != {} then None
    else Some(t.(dirs := t.dirs + Ancestors(Parse(s))))
  }

  /** The names of the entries of a directory; ".." is none of them. */
  function Entries<F>(t: Tree<F>, p: Path): set<string> {
    set q | q in t.files.Keys + t.dirs && q.elems != [] && Parent(q) == p && Last(q) != ".." :: Last(q)
  }

  datatype Removal<+F> = Removed(tree: Tree<F>) | Missing | Failed

  /** `os.Remove`: a file, or a directory with nothing in it. */
  function Remove<F>(t: Tree<F>, s: string): Removal<F> {
    if s == "" then Missing
    else
      var p := Parse(s);
      if p in t.files then Removed(t.(files := t.files - {p}))
      else if p in t.dirs then
        if p.elems == [] || Entries(t, p) != {} then Failed else Removed(t.(dirs := t.dirs - {p}))
      else if Ancestors(p) * t.files.Keys != {} then Failed
      else Missing
  }

  lemma ChildParts(p: Path, e: string)
    ensures Parent(Child(p, e)) == p && Last(Child(p, e)) == e
  {
    assert Child(p, e).elems[..|p.elems|] == p.elems;
  }

  lemma EntriesAreChildren<F>(t: Tree<F>, p: Path, e: string)
    ensures e in Entries(t, p) <==> e != ".." && Child(p, e) in t.files.Keys + t.dirs
  {
    ChildParts(p, e);
    if e in Entries(t, p) {
      var q :| q in t.files.Keys + t.dirs && q.elems != [] && Parent(q) == p && Last(q) == e;
      assert q.elems == q.elems[..|q.elems| - 1] + [e];
      assert q == Child(p, e);
    }
  }

  lemma WriteThenRead<F>(t: Tree<F>, s: string, f: F)
    ensures WriteFile(t, s, f).Some? ==> ReadFile(WriteFile(t, s, f).value, s) == Some(f)
  {
  }

  // ---- When the calls succeed ---------------------------------------------------------------

  /** No file stands where a directory is needed. */
  predicate Passable<F>(t: Tree<F>, dir: Path) {
    forall d <- Ancestors(dir) :: d !in t.files
  }

  lemma PassableExactly<F>(t: Tree<F>, dir: Path)
    ensures Ancestors(dir) * t.files.Keys == {} <==> Passable(t, dir)
  {
    forall d | d in Ancestors(dir) && d in t.files
      ensures d in Ancestors(dir) * t.files.Keys
    {
    }
  }

  lemma SelfAncestor(p: Path)
    ensures p in Ancestors(p)
  {
    assert p.elems[..|p.elems|] == p.elems;
  }

  lemma ChildNoAncestor(p: Path, e: string)
    ensures Child(p, e) !in Ancestors(p)
  {
    assert forall d <- Ancestors(p) :: |d.elems| <= |p.elems|;
  }

  /** Making directories, by path. */
  lemma MkdirAllExactly<F>(t: Tree<F>, s: string)
    requires s != ""
    ensures MkdirAll(t, s) == if Passable(t, Parse(s)) then Some(t.(dirs := t.dirs + Ancestors(Parse(s)))) else None
  {
    PassableExactly(t, Parse(s));
  }

  /** Writing a file into a directory. */
  lemma WrittenInto<F>(t: Tree<F>, s: string, dir: Path, e: string, f: F)
    requires s != "" && Parse(s) == Child(dir, e)
    ensures WriteFile(t, s, f)
            == if dir in t.dirs && Child(dir, e) !in t.dirs
               then Some(t.(files := t.files[Child(dir, e) := f])) else None
  {
    ChildParts(dir, e);
  }

  /** There is something that can be removed, or nothing at all and no file in the way. */
  predicate Removable<F>(t: Tree<F>, p: Path) {
    || p in t.files
    || (p in t.dirs && p.elems != [] && Entries(t, p) == {})
    || (p !in t.dirs && Passable(t, p))
  }

  lemma RemovedExactly<F>(t: Tree<F>, s: string)
    requires s != ""
    ensures var p, r := Parse(s), Remove(t, s);
            && (r.Failed? <==> !Removable(t, p))
            && (r.Missing? ==> p !in t.files && p !in t.dirs)
            && (r.Removed? ==>
                  r.tree == if p in t.files then Tree(t.files - {p}, t.dirs) else Tree(t.files, t.dirs - {p}))
  {
    PassableExactly(t, Parse(s));
  }
}
