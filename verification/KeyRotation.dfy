/**
 Whole runs of the key manager: versions come and go, and a ciphertext can be opened for
 exactly as long as the version that sealed it has not been destroyed.
 */
module KeyRotation {
  import opened Wrappers
  import opened Bytes
  import opened Paths
  import opened PathIds
  import opened FileTree
  import opened Decimal
  import opened KeyManager
  import opened KeyPaths

  /** A call that changes the tree; `now` is what the clock reads in it. */
  datatype Op =
    | MakeKey(parent: string, name: string, kind: Kind)
    | MakeVersion(parent: string, now: nat, material: bytes)
    | DestroyVersion(id: string)

  function Next(root: string, t: Tree<File>, op: Op): Tree<File> {
    match op
    case MakeKey(parent, name, kind) => CreateKey(root, t, parent, name, kind).1
    case MakeVersion(parent, now, material) => CreateVersion(root, t, parent, now, material).1
    case DestroyVersion(id) => Destroy(root, t, id).1
  }

  function Run(root: string, t: Tree<File>, ops: seq<Op>): Tree<File>
    decreases |ops|
  {
    if ops == [] then t else Run(root, Next(root, t, ops[0]), ops[1..])
  }

  /** The clock after a call. */
  function Tick(clock: nat, op: Op): nat {
    if op.MakeVersion? then op.now else clock
  }

  function Clock(clock: nat, ops: seq<Op>): nat
    decreases |ops|
  {
    if ops == [] then clock else Clock(Tick(clock, ops[0]), ops[1..])
  }

  /** Every version is made at a later clock than all before. */
  predicate Increasing(clock: nat, ops: seq<Op>)
    decreases |ops|
  {
    ops == [] || ((ops[0].MakeVersion? ==> clock < ops[0].now) && Increasing(Tick(clock, ops[0]), ops[1..]))
  }

  predicate Destroys(root: string, op: Op, p: Path) {
    && op.DestroyVersion?
    && Resolve(root, [op.id]).Ok? && Resolve(root, [op.id]).value != ""
    && Parse(Resolve(root, [op.id]).value) == p
  }

  ghost predicate IsVersion(e: string, clock: nat) {
    exists n: nat :: n <= clock && e == Format(n)
  }

  /** Metadata is in files of that name, and keys are in files named after a clock reading that has passed. */
  ghost predicate WellNamed(t: Tree<File>, clock: nat) {
    && (forall p <- t.files :: Canonical(p) && p.elems != []
                               && if t.files[p].Metadata? then Last(p) == "metadata" else IsVersion(Last(p), clock))
    && (forall d <- t.dirs :: Canonical(d))
  }

  lemma LaterName(e: string, clock: nat, now: nat)
    requires clock < now && (e == "metadata" || IsVersion(e, clock))
    ensures e != Format(now)
  {
    FormatNormal(now);
    if e != "metadata" {
      var n: nat :| n <= clock && e == Format(n);
      if e == Format(now) {
        FormatInjective(n, now);
      }
    }
  }

  // ---- What one call does to the files -----------------------------------------------------

  /** `createKey` makes directories and may then write a metadata file that is not there. */
  lemma MakeKeyCases(root: string, t: Tree<File>, parent: string, name: string, kind: Kind)
    ensures var r, t' := Resolve(root, [parent, name]), CreateKey(root, t, parent, name, kind).1;
            || t' == t
            || (r.Ok? && MkdirAll(t, r.value) == Some(t'))
            || (r.Ok? && MkdirAll(t, r.value).Some?
                && ReadFile(MkdirAll(t, r.value).value, JoinPath([r.value, "metadata"])) == None
                && WriteFile(MkdirAll(t, r.value).value, JoinPath([r.value, "metadata"]), Metadata(kind)) == Some(t'))
  {
  }

  lemma MakeKeyWrites(root: string, t: Tree<File>, parent: string, name: string, kind: Kind) returns (m: Path)
    ensures Canonical(m) && m.elems != [] && Last(m) == "metadata"
    ensures var t' := CreateKey(root, t, parent, name, kind).1;
            || t'.files == t.files
            || (m !in t.files && t'.files == t.files[m := Metadata(kind)])
  {
    MakeKeyCases(root, t, parent, name, kind);
    var r := Resolve(root, [parent, name]);
    m := MetadataFile(if r.Ok? then r.value else "");
  }

  lemma MetadataFile(dir: string) returns (m: Path)
    ensures Canonical(m) && m.elems != [] && Last(m) == "metadata"
    ensures JoinPath([dir, "metadata"]) != "" && Parse(JoinPath([dir, "metadata"])) == m
  {
    JoinedChild(dir, "metadata");
    JoinLeads(dir, "metadata");
    m := Joined(dir, "metadata");
    ShownNotEmpty(m);
  }

  lemma MakeKeyDirs(root: string, t: Tree<File>, parent: string, name: string, kind: Kind)
    requires forall d <- t.dirs :: Canonical(d)
    ensures forall d <- CreateKey(root, t, parent, name, kind).1.dirs :: Canonical(d)
  {
    MakeKeyCases(root, t, parent, name, kind);
    var r := Resolve(root, [parent, name]);
    if r.Ok? {
      ParseCanonical(r.value);
      AncestorsCanonical(Parse(r.value));
    }
  }

  lemma MakeVersionWrites(root: string, t: Tree<File>, parent: string, now: nat, material: bytes)
    ensures var made := CreateVersion(root, t, parent, now, material);
            var r, t' := made.0, made.1;
            && (r.Err? ==> t' == t)
            && (r.Ok? ==> MetadataFor(root, t, parent).Ok? && t'.dirs == t.dirs
                          && t'.files == t.files[Child(Joined(root, parent), Format(now))
                                             := VersionFile(MetadataFor(root, t, parent).value, material)])
  {
    VersionPathLeads(root, parent, now);
  }

  lemma DestroyWrites(root: string, t: Tree<File>, id: string)
    ensures var t' := Destroy(root, t, id).1;
            && t'.dirs <= t.dirs
            && t'.files == map p | p in t.files && !Destroys(root, DestroyVersion(id), p) :: t.files[p]
  {
  }

  lemma AncestorsCanonical(p: Path)
    requires Canonical(p)
    ensures forall d <- Ancestors(p) :: Canonical(d)
  {
  }

  lemma NextWellNamed(root: string, t: Tree<File>, clock: nat, op: Op)
    requires WellNamed(t, clock) && Increasing(clock, [op])
    ensures WellNamed(Next(root, t, op), Tick(clock, op))
  {
    match op
    case MakeKey(parent, name, kind) =>
      var m := MakeKeyWrites(root, t, parent, name, kind);
      MakeKeyDirs(root, t, parent, name, kind);
    case MakeVersion(parent, now, material) => VersionWellNamed(root, t, clock, parent, now, material);
    case DestroyVersion(id) => DestroyWrites(root, t, id);
  }

  lemma VersionWellNamed(root: string, t: Tree<File>, clock: nat, parent: string, now: nat, material: bytes)
    requires WellNamed(t, clock) && clock < now
    ensures WellNamed(CreateVersion(root, t, parent, now, material).1, now)
  {
    MakeVersionWrites(root, t, parent, now, material);
    VersionPathLeads(root, parent, now);
    ChildParts(Joined(root, parent), Format(now));
  }

  /** A version stays as it is or is destroyed, and never comes back. */
  lemma FileKept(root: string, t: Tree<File>, clock: nat, op: Op, p: Path)
    requires Increasing(clock, [op]) && p.elems != [] && IsVersion(Last(p), clock)
    ensures FileAt(Next(root, t, op), p) == if Destroys(root, op, p) then None else FileAt(t, p)
  {
    match op
    case MakeKey(parent, name, kind) =>
      var m := MakeKeyWrites(root, t, parent, name, kind);
      MetadataIsNone(p, clock);
    case MakeVersion(parent, now, material) =>
      MakeVersionWrites(root, t, parent, now, material);
      VersionPathLeads(root, parent, now);
      ChildParts(Joined(root, parent), Format(now));
      LaterName(Last(p), clock, now);
    case DestroyVersion(id) => DestroyWrites(root, t, id);
  }

  /** A call keeps the names; a version stays as it is or is destroyed, and never comes back. */
  lemma CallKeeps(root: string, t: Tree<File>, clock: nat, op: Op, p: Path)
    requires WellNamed(t, clock) && Increasing(clock, [op])
    requires p.elems != [] && IsVersion(Last(p), clock)
    ensures WellNamed(Next(root, t, op), Tick(clock, op)) && IsVersion(Last(p), Tick(clock, op))
    ensures FileAt(Next(root, t, op), p) == if Destroys(root, op, p) then None else FileAt(t, p)
  {
    NextWellNamed(root, t, clock, op);
    FileKept(root, t, clock, op, p);
  }

  lemma MetadataIsNone(p: Path, clock: nat)
    requires p.elems != [] && IsVersion(Last(p), clock)
    ensures Last(p) != "metadata"
  {
    var n: nat :| n <= clock && Last(p) == Format(n);
    FormatNormal(n);
  }

  predicate Spared(root: string, ops: seq<Op>, p: Path) {
    forall op <- ops :: !Destroys(root, op, p)
  }

  lemma SparedSplits(root: string, ops: seq<Op>, p: Path)
    requires ops != []
    ensures Spared(root, ops, p) <==> !Destroys(root, ops[0], p) && Spared(root, ops[1..], p)
  {
    assert forall op :: op in ops <==> op == ops[0] || op in ops[1..];
  }

  lemma {:induction false} RunKeeps(root: string, t: Tree<File>, clock: nat, ops: seq<Op>, p: Path)
    requires WellNamed(t, clock) && Increasing(clock, ops)
    requires p.elems != [] && IsVersion(Last(p), clock)
    ensures WellNamed(Run(root, t, ops), Clock(clock, ops))
    ensures FileAt(Run(root, t, ops), p) == if Spared(root, ops, p) then FileAt(t, p) else None
    decreases |ops|
  {
    if ops != [] {
      var t' := Next(root, t, ops[0]);
      CallKeeps(root, t, clock, ops[0], p);
      RunKeeps(root, t', Tick(clock, ops[0]), ops[1..], p);
      SparedSplits(root, ops, p);
      assert Run(root, t, ops) == Run(root, t', ops[1..]);
    }
  }

  lemma {:induction false} IncreasingSplits(clock: nat, a: seq<Op>, b: seq<Op>)
    requires Increasing(clock, a + b)
    ensures Increasing(clock, a) && Increasing(Clock(clock, a), b)
    decreases |a|
  {
    if a == [] {
      assert a + b == b;
    } else {
      assert (a + b)[1..] == a[1..] + b;
      IncreasingSplits(Tick(clock, a[0]), a[1..], b);
    }
  }

  lemma RunWellNamed(root: string, t: Tree<File>, clock: nat, ops: seq<Op>)
    requires WellNamed(t, clock) && Increasing(clock, ops)
    ensures WellNamed(Run(root, t, ops), Clock(clock, ops))
  {
    var p := Path(false, [Format(clock)]);
    assert Last(p) == Format(clock);
    RunKeeps(root, t, clock, ops, p);
  }

  // ---- Ciphertexts ------------------------------------------------------------------------

  lemma BytesRoundTrip(s: string)
    requires forall i :: 0 <= i < |s| ==> s[i] < 256 as char
    ensures FromBytes(ToBytes(s)) == s
  {
  }

  /** Only the first ':' cuts, whatever nonce and body hold. */
  lemma {:induction false} SplitFirst(version: bytes, rest: bytes)
    requires ':' as int as byte !in version
    ensures SplitVersion(version + [':' as int as byte] + rest) == Some((version, rest))
    decreases |version|
  {
    var c := ':' as int as byte;
    var whole := version + [c] + rest;
    if version == [] {
      assert whole == [c] + rest && whole[1..] == rest;
    } else {
      SplitFirst(version[1..], rest);
      assert whole[1..] == version[1..] + [c] + rest;
      assert [version[0]] + version[1..] == version;
    }
  }

  /** And a ciphertext is only cut there. */
  lemma {:induction false} SplitOnly(ciphertext: bytes, version: bytes, rest: bytes)
    ensures SplitVersion(ciphertext) == Some((version, rest)) <==> CutsAt(ciphertext, version, rest)
    decreases |ciphertext|
  {
    if SplitVersion(ciphertext) == Some((version, rest)) {
      var c := ciphertext[0];
      if c == ':' as int as byte {
        assert ciphertext == [] + [c] + ciphertext[1..];
      } else {
        SplitOnly(ciphertext[1..], version[1..], rest);
        assert ciphertext == [c] + (version[1..] + [':' as int as byte] + rest);
        assert version == [c] + version[1..];
      }
    }
    if CutsAt(ciphertext, version, rest) {
      SplitFirst(version, rest);
    }
  }

  /** `ciphertext` is the version, a ':' and the rest, and the version holds no other ':'. */
  predicate CutsAt(ciphertext: bytes, version: bytes, rest: bytes) {
    ciphertext == version + [':' as int as byte] + rest && ':' as int as byte !in version
  }

  lemma {:induction false} NoSplit(ciphertext: bytes)
    ensures SplitVersion(ciphertext).None? <==> ':' as int as byte !in ciphertext
  {
    if ciphertext != [] {
      NoSplit(ciphertext[1..]);
      assert ciphertext == [ciphertext[0]] + ciphertext[1..];
    }
  }

  /** The ciphertext names a version that is there, and its rest is authentic under that key and the additional data. */
  ghost predicate Authentic(root: string, t: Tree<File>, aead: Aead, keyID: string, ciphertext: bytes, aad: bytes,
                            version: bytes, rest: bytes, key: bytes, plaintext: bytes) {
    && CutsAt(ciphertext, version, rest)
    && Resolve(root, [keyID, FromBytes(version)]).Ok?
    && ReadFile(t, Resolve(root, [keyID, FromBytes(version)]).value) == Some(Dek(key))
    && |rest| >= 12
    && aead.open_(key, rest[..12], rest[12..], aad) == Some(plaintext)
  }

  /** Decrypt yields a text exactly when the ciphertext is authentic for it; otherwise it yields an error. */
  lemma DecryptsExactly(root: string, t: Tree<File>, aead: Aead, keyID: string, ciphertext: bytes, aad: bytes,
                        plaintext: bytes)
    ensures Decrypt(root, t, aead, keyID, ciphertext, aad) == Ok(plaintext)
            <==> exists version, rest, key ::
                   Authentic(root, t, aead, keyID, ciphertext, aad, version, rest, key, plaintext)
  {
    if Decrypt(root, t, aead, keyID, ciphertext, aad) == Ok(plaintext) {
      var (version, rest) := SplitVersion(ciphertext).value;
      SplitOnly(ciphertext, version, rest);
      var key := ReadFile(t, Resolve(root, [keyID, FromBytes(version)]).value).value.key;
      assert Authentic(root, t, aead, keyID, ciphertext, aad, version, rest, key, plaintext);
    }
    if version, rest, key :| Authentic(root, t, aead, keyID, ciphertext, aad, version, rest, key, plaintext) {
      SplitOnly(ciphertext, version, rest);
    }
  }

  /** Which error it is. */
  lemma DecryptErrors(root: string, t: Tree<File>, aead: Aead, keyID: string, ciphertext: bytes, aad: bytes)
    ensures ':' as int as byte !in ciphertext ==>
              Decrypt(root, t, aead, keyID, ciphertext, aad) == Err(BadCiphertext)
    ensures forall version, rest | CutsAt(ciphertext, version, rest) ::
              var pth := Resolve(root, [keyID, FromBytes(version)]);
              var r := Decrypt(root, t, aead, keyID, ciphertext, aad);
              && (pth.Err? <==> r == Err(BadPath))
              && (pth.Ok? && !(ReadFile(t, pth.value).Some? && ReadFile(t, pth.value).value.Dek?)
                  <==> r == Err(NotFound))
  {
    NoSplit(ciphertext);
    forall version, rest | CutsAt(ciphertext, version, rest)
      ensures SplitVersion(ciphertext) == Some((version, rest))
    {
      SplitOnly(ciphertext, version, rest);
    }
  }

  /**
   What was sealed under some additional data and is opened under other, or with another key in
   the version's file, is opened exactly as far as the cipher itself opens it.
   */
  lemma OpensAsCipherDoes(root: string, t: Tree<File>, aead: Aead, keyID: string, n: nat, key: bytes, nonce: bytes,
                          plaintext: bytes, aad: bytes, found: bytes, other: bytes)
    requires |nonce| == NONCE_SIZE && Resolve(root, [keyID]).Ok?
    requires FileAt(t, Child(KeyDir(root, keyID), Format(n))) == Some(Dek(found))
    ensures var text := aead.open_(found, nonce, aead.seal(key, nonce, plaintext, aad), other);
            var r := Decrypt(root, t, aead, keyID, Sealed(aead, Format(n), key, nonce, plaintext, aad), other);
            (text.Some? ==> r == Ok(text.value)) && (text.None? ==> r == Err(BadCiphertext))
  {
    var body := aead.seal(key, nonce, plaintext, aad);
    SealedSplits(aead, n, key, nonce, plaintext, aad);
    FormatNormal(n);
    ResolveChild(root, keyID, Format(n));
    ShownNotEmpty(Child(KeyDir(root, keyID), Format(n)));
    assert (nonce + body)[..NONCE_SIZE] == nonce && (nonce + body)[NONCE_SIZE..] == body;
  }

  lemma SealedSplits(aead: Aead, n: nat, key: bytes, nonce: bytes, plaintext: bytes, aad: bytes)
    requires |nonce| == NONCE_SIZE
    ensures SplitVersion(Sealed(aead, Format(n), key, nonce, plaintext, aad))
            == Some((ToBytes(Format(n)), nonce + aead.seal(key, nonce, plaintext, aad)))
    ensures FromBytes(ToBytes(Format(n))) == Format(n)
  {
    var v := Format(n);
    var c := ':' as int as byte;
    BytesRoundTrip(v);
    assert ToBytes(v + ":") == ToBytes(v) + [c];
    forall i | 0 <= i < |ToBytes(v)|
      ensures ToBytes(v)[i] != c
    {
      assert '0' <= v[i] <= '9';
    }
    SplitFirst(ToBytes(v), nonce + aead.seal(key, nonce, plaintext, aad));
  }

  /** Opening what was sealed depends on the sealing version's file alone. */
  lemma OpensFromFile(root: string, t: Tree<File>, aead: Aead, keyID: string, n: nat, key: bytes, nonce: bytes,
                      plaintext: bytes, aad: bytes)
    requires Correct(aead) && |nonce| == NONCE_SIZE && Resolve(root, [keyID]).Ok?
    ensures var q := Child(KeyDir(root, keyID), Format(n));
            var opened_ := Decrypt(root, t, aead, keyID, Sealed(aead, Format(n), key, nonce, plaintext, aad), aad);
            && (q !in t.files ==> opened_ == Err(NotFound))
            && (q in t.files && t.files[q] == Dek(key) ==> opened_ == Ok(plaintext))
  {
    var q := Child(KeyDir(root, keyID), Format(n));
    var body := aead.seal(key, nonce, plaintext, aad);
    SealedSplits(aead, n, key, nonce, plaintext, aad);
    FormatNormal(n);
    ResolveChild(root, keyID, Format(n));
    ShownNotEmpty(q);
    assert (nonce + body)[..NONCE_SIZE] == nonce && (nonce + body)[NONCE_SIZE..] == body;
    assert aead.open_(key, nonce, body, aad) == Some(plaintext);
  }

  /** The version that Encrypt uses is a file named after a clock reading. */
  lemma EncryptsFromFile(root: string, t: Tree<File>, clock: nat, keyID: string, dir: Path, version: string,
                         key: bytes) returns (n: nat)
    requires WellNamed(t, clock) && Encrypts(root, t, keyID, dir, version, key)
    ensures n <= clock && version == Format(n) && dir == KeyDir(root, keyID)
    ensures Child(dir, version) in t.files && t.files[Child(dir, version)] == Dek(key)
  {
    var pth := Resolve(root, [keyID]).value;
    ResolveOne(root, keyID);
    ParseShow(KeyDir(root, keyID));
    EntriesAreChildren(t, dir, version);
    var q := Child(dir, version);
    assert Canonical(q) && q.elems[|dir.elems|] == version;
    JoinedChild(pth, version);
    JoinLeads(pth, version);
    assert q == Parse(JoinPath([pth, version]));
    ChildParts(dir, version);
    assert IsVersion(Last(q), clock);
    n :| n <= clock && version == Format(n);
  }

  /**
   Rotation safety, and its limit: what Encrypt sealed after some calls is opened, under the
   same additional data, after any further calls unless one of them destroyed the version that
   sealed it; then it is never opened again.
   */
  lemma OpenedUnlessDestroyed(root: string, aead: Aead, t: Tree<File>, clock: nat, before: seq<Op>, after: seq<Op>,
                              keyID: string, dir: Path, version: string, key: bytes,
                              nonce: bytes, plaintext: bytes, aad: bytes)
    requires Correct(aead) && |nonce| == NONCE_SIZE
    requires WellNamed(t, clock) && Increasing(clock, before + after)
    requires Encrypts(root, Run(root, t, before), keyID, dir, version, key)
    ensures Decrypt(root, Run(root, Run(root, t, before), after), aead, keyID,
                    Sealed(aead, version, key, nonce, plaintext, aad), aad)
            == if Spared(root, after, Child(dir, version)) then Ok(plaintext) else Err(NotFound)
  {
    IncreasingSplits(clock, before, after);
    RunWellNamed(root, t, clock, before);
    var t1 := Run(root, t, before);
    var n := EncryptsFromFile(root, t1, Clock(clock, before), keyID, dir, version, key);
    var q := Child(dir, version);
    ChildParts(dir, version);
    assert IsVersion(Last(q), Clock(clock, before));
    RunKeeps(root, t1, Clock(clock, before), after, q);
    OpensFromFile(root, Run(root, t1, after), aead, keyID, n, key, nonce, plaintext, aad);
  }
}
