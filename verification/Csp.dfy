/**
 The Content-Security-Policy header of middleware/csp.go: the nonce put in for every
 placeholder, or, without a nonce, the sources that need one dropped and the spaces they
 leave behind tidied.
 */
module Csp {
  import opened Wrappers
  import opened Bytes
  import opened Strings
  import Base64

  const PLACEHOLDER := "{{nonce}}"
  const SOURCE := "'nonce-{{nonce}}'"
  const EMPTY_SOURCE := "'nonce-'"

  // ---- With a nonce ---------------------------------------------------------------------

  /** What ProcessNonce makes of 16 random bytes. */
  function Nonce(random: bytes): string
    requires |random| == 16
  {
    Base64.Encode(random, false, true)
  }

  predicate NoBraces(s: string) {
    forall i :: 0 <= i < |s| ==> s[i] != '{' && s[i] != '}'
  }

  lemma {:induction false} EncodedShape(b: bytes)
    ensures |Base64.Encode(b, false, true)| == (|b| + 2) / 3 * 4
    ensures NoBraces(Base64.Encode(b, false, true))
  {
    if |b| > 2 {
      EncodedShape(b[3..]);
      EncodedGroup(b);
    }
  }

  lemma EncodedGroup(b: bytes)
    requires |b| > 2
    ensures exists group :: |group| == 4 && NoBraces(group)
                            && Base64.Encode(b, false, true) == group + Base64.Encode(b[3..], false, true)
  {
    var group := Base64.Symbols(Base64.Group(b[0], b[1], b[2]), false);
    assert |group| == 4 && NoBraces(group);
  }

  /** Text without placeholders, put together around a nonce that is too long to sit inside one, has none. */
  lemma {:induction false} JoinedFree(parts: seq<string>, nonce: string)
    requires parts != [] && forall p <- parts :: !Contains(p, PLACEHOLDER)
    requires NoBraces(nonce) && |nonce| >= |PLACEHOLDER| - 1
    ensures !Contains(Join(parts, nonce), PLACEHOLDER)
  {
    if |parts| > 1 {
      JoinedFree(parts[1..], nonce);
      var first, rest := parts[0], Join(parts[1..], nonce);
      var s := first + nonce + rest;
      forall i | 0 <= i <= |s|
        ensures !At(s, PLACEHOLDER, i)
      {
        NoneAcross(first, nonce, rest, i);
      }
      assert Join(parts, nonce) == s;
    }
  }

  /** A placeholder that is neither in the text before a nonce nor in the text after it is nowhere. */
  lemma NoneAcross(first: string, nonce: string, rest: string, i: nat)
    requires !Contains(first, PLACEHOLDER) && !Contains(rest, PLACEHOLDER)
    requires NoBraces(nonce) && |nonce| >= |PLACEHOLDER| - 1
    ensures !At(first + nonce + rest, PLACEHOLDER, i)
  {
    var s, n := first + nonce + rest, |PLACEHOLDER|;
    if i + n <= |first| {
      assert !At(first, PLACEHOLDER, i);
      var k :| 0 <= k < n && first[i + k] != PLACEHOLDER[k];
      assert s[i + k] == first[i + k];
    } else if i + n <= |s| && i < |first| + |nonce| {
      assert PLACEHOLDER[0] == '{' && PLACEHOLDER[n - 1] == '}';
      assert i >= |first| ==> s[i + 0] == nonce[i - |first|];
      assert i < |first| ==> s[i + (n - 1)] == nonce[i + (n - 1) - |first|];
    } else if i + n <= |s| {
      var j := i - |first| - |nonce|;
      assert !At(rest, PLACEHOLDER, j);
      var k :| 0 <= k < n && rest[j + k] != PLACEHOLDER[k];
      assert s[i + k] == rest[j + k];
    }
  }

  /** The nonce has 24 characters, of which the 16 random bytes are read back. */
  lemma NonceReadsBack(random: bytes)
    requires |random| == 16
    ensures |Nonce(random)| == 24 && NoBraces(Nonce(random)) && Base64.Decode(Nonce(random)) == Some(random)
  {
    EncodedShape(random);
    Base64.DecodeInvertsEncodings(random, false, true);
  }

  /** With a nonce the header is the policy's own text around it, in order, and no placeholder is left. */
  lemma SubstitutedPolicy(policy: string, random: bytes)
    requires |random| == 16
    ensures var parts, value := Segments(policy, PLACEHOLDER), ReplaceAll(policy, PLACEHOLDER, Nonce(random));
            && Join(parts, PLACEHOLDER) == policy
            && value == Join(parts, Nonce(random))
            && !Contains(value, PLACEHOLDER)
            && Nonce(random) != ""
  {
    EncodedShape(random);
    SegmentsJoin(policy, PLACEHOLDER);
    ReplaceIsJoin(policy, PLACEHOLDER, Nonce(random));
    SegmentsFree(policy, PLACEHOLDER);
    JoinedFree(Segments(policy, PLACEHOLDER), Nonce(random));
  }

  // ---- Without one ----------------------------------------------------------------------

  /** `unicode.IsSpace`. */
  predicate IsSpace(c: char) {
    '\t' <= c <= '\r' || c == ' ' || c == '\U{85}' || c == '\U{A0}' || c == '\U{1680}' || '\U{2000}' <= c <= '\U{200A}'
    || c == '\U{2028}' || c == '\U{2029}' || c == '\U{202F}' || c == '\U{205F}' || c == '\U{3000}'
  }

  /** The longest prefix without a space. */
  function Word(s: string): (w: string)
    ensures w <= s
    ensures |w| < |s| ==> IsSpace(s[|w|])
    ensures forall i :: 0 <= i < |w| ==> !IsSpace(w[i])
  {
    if s == "" || IsSpace(s[0]) then "" else [s[0]] + Word(s[1..])
  }

  /** `strings.Fields`. */
  function Fields(s: string): seq<string>
    decreases |s|
  {
    if s == "" then []
    else if IsSpace(s[0]) then Fields(s[1..])
    else [Word(s)] + Fields(s[|Word(s)|..])
  }

  function Tidy(s: string): string {
    ReplaceAll(Join(Fields(s), " "), " ;", ";")
  }

  /** Every space is a single blank with text after it; `strict` adds that the text is no semicolon. */
  predicate Single(s: string, strict: bool) {
    forall i :: 0 <= i < |s| && IsSpace(s[i]) ==>
      s[i] == ' ' && i + 1 < |s| && !IsSpace(s[i + 1]) && (strict ==> s[i + 1] != ';')
  }

  /** No doubled or edge spaces, no other white space, and no space before a semicolon. */
  predicate IsTidy(s: string) {
    Single(s, true) && (s != "" ==> !IsSpace(s[0]))
  }

  lemma WordInFront(w: string, rest: string)
    requires w != "" && (forall i :: 0 <= i < |w| ==> !IsSpace(w[i]))
    requires Single(rest, false) && rest != "" && !IsSpace(rest[0])
    ensures var s := w + " " + rest; Single(s, false) && !IsSpace(s[0])
  {
    var s := w + " " + rest;
    assert forall i :: |w| < i < |s| ==> s[i] == rest[i - |w| - 1];
  }

  lemma {:induction false} JoinedSingle(s: string)
    ensures var j := Join(Fields(s), " ");
            Single(j, false) && (j != "" ==> !IsSpace(j[0])) && (Fields(s) != [] ==> j != "")
    decreases |s|
  {
    if s != "" {
      if IsSpace(s[0]) {
        JoinedSingle(s[1..]);
      } else {
        var w, rest := Word(s), Fields(s[|Word(s)|..]);
        JoinedSingle(s[|w|..]);
        assert Fields(s)[1..] == rest;
        if rest != [] {
          WordInFront(w, Join(rest, " "));
          assert Join(Fields(s), " ") == w + " " + Join(rest, " ");
        }
      }
    }
  }

  lemma SingleTail(t: string, n: nat)
    requires Single(t, false) && n <= |t|
    ensures Single(t[n..], false)
  {
    forall i | 0 <= i < |t[n..]| && IsSpace(t[n..][i])
      ensures t[n..][i] == ' ' && i + 1 < |t[n..]| && !IsSpace(t[n..][i + 1])
    {
      assert t[n..][i] == t[n + i];
    }
  }

  lemma SingleOn(c: char, t: string)
    requires Single(t, true)
    requires IsSpace(c) ==> c == ' ' && t != "" && !IsSpace(t[0]) && t[0] != ';'
    ensures Single([c] + t, true)
  {
    var s := [c] + t;
    assert forall i :: 0 < i < |s| ==> s[i] == t[i - 1];
  }

  lemma PairAt(j: string)
    ensures At(j, " ;", 0) <==> |j| > 1 && j[0] == ' ' && j[1] == ';'
  {
    if At(j, " ;", 0) {
      assert j[0 + 0] == " ;"[0] && j[0 + 1] == " ;"[1];
    }
  }

  lemma {:induction false} ReplacedSingle(j: string)
    requires Single(j, false)
    ensures Single(ReplaceAll(j, " ;", ";"), true)
    ensures j != "" && !IsSpace(j[0]) ==> ReplaceAll(j, " ;", ";") != "" && ReplaceAll(j, " ;", ";")[0] == j[0]
    decreases |j|
  {
    if At(j, " ;", 0) {
      assert j[0 + 0] == " ;"[0];
      SingleTail(j, 2);
      ReplacedSingle(j[2..]);
      SingleOn(';', ReplaceAll(j[2..], " ;", ";"));
    } else if j != "" {
      SingleTail(j, 1);
      ReplacedSingle(j[1..]);
      PairAt(j);
      SingleOn(j[0], ReplaceAll(j[1..], " ;", ";"));
    }
  }

  lemma SingleNext(t: string, n: nat)
    requires Single(t, false) && n < |t| && IsSpace(t[n])
    ensures t[n] == ' ' && t[n + 1..] != "" && !IsSpace(t[n + 1..][0])
  {
  }

  lemma {:induction false} FieldsOfTidy(t: string)
    requires Single(t, false) && (t != "" ==> !IsSpace(t[0]))
    ensures Join(Fields(t), " ") == t
    decreases |t|
  {
    if t != "" {
      var w := Word(t);
      if |w| < |t| {
        var rest := t[|w| + 1..];
        FieldsStep(t, w);
        SingleTail(t, |w| + 1);
        SingleNext(t, |w|);
        FieldsOfTidy(rest);
        JoinTwoFields(w, Fields(rest));
        assert t == w + " " + rest;
      } else {
        assert t == w && t[|w|..] == "";
        assert Fields(t) == [w];
      }
    }
  }

  lemma FieldsStep(t: string, w: string)
    requires t != "" && !IsSpace(t[0]) && w == Word(t) && |w| < |t| && Single(t, false)
    ensures t[|w|] == ' ' && |w| + 1 < |t| && !IsSpace(t[|w| + 1])
    ensures Fields(t) == [w] + Fields(t[|w| + 1..]) && Fields(t[|w| + 1..]) != []
  {
    assert t[|w|..][0] == ' ' && t[|w|..][1..] == t[|w| + 1..];
    assert t[|w| + 1..][0] == t[|w| + 1];
  }

  lemma JoinTwoFields(w: string, rest: seq<string>)
    requires rest != []
    ensures Join([w] + rest, " ") == w + " " + Join(rest, " ")
  {
    assert ([w] + rest)[1..] == rest;
  }

  /** Tidying leaves no doubled or edge spaces and no " ;", and tidying again changes nothing. */
  lemma TidyIsTidy(s: string)
    ensures IsTidy(Tidy(s))
    ensures Tidy(Tidy(s)) == Tidy(s)
  {
    JoinedSingle(s);
    ReplacedSingle(Join(Fields(s), " "));
    var t := Tidy(s);
    FieldsOfTidy(t);
    forall i | 0 <= i <= |t|
      ensures !At(t, " ;", i)
    {
      if i + 2 <= |t| {
        assert IsSpace(t[i]) ==> t[i + 1] != ';';
        assert t[i + 0] != " ;"[0] || t[i + 1] != " ;"[1];
      }
    }
    NothingToReplace(t, " ;", ";");
  }

  /** White space as the Unicode standard lists it. */
  const BLANKS: set<char> := {
    '\U{9}', '\U{A}', '\U{B}', '\U{C}', '\U{D}', '\U{20}', '\U{85}', '\U{A0}', '\U{1680}', '\U{2000}', '\U{2001}',
    '\U{2002}', '\U{2003}', '\U{2004}', '\U{2005}', '\U{2006}', '\U{2007}', '\U{2008}', '\U{2009}', '\U{200A}',
    '\U{2028}', '\U{2029}', '\U{202F}', '\U{205F}', '\U{3000}'
  }

  lemma SpacesAreBlanks(c: char)
    ensures IsSpace(c) <==> c in BLANKS
  {
    assert '\U{2000}' <= c <= '\U{200A}' ==> 0x2000 <= c as int <= 0x200A;
  }

  /** A text without its white space. */
  function Text(s: string): string {
    if s == "" then "" else (if s[0] in BLANKS then "" else [s[0]]) + Text(s[1..])
  }

  lemma {:induction false} TextAppend(a: string, b: string)
    ensures Text(a + b) == Text(a) + Text(b)
    decreases |a|
  {
    if a == "" {
      assert a + b == b;
    } else {
      TextAppend(a[1..], b);
      assert (a + b)[1..] == a[1..] + b;
    }
  }

  lemma {:induction false} TextOfFields(s: string)
    ensures Text(Join(Fields(s), " ")) == Text(s)
    decreases |s|
  {
    if s != "" {
      SpacesAreBlanks(s[0]);
      if IsSpace(s[0]) {
        TextOfFields(s[1..]);
      } else {
        var w, after := Word(s), s[|Word(s)|..];
        TextOfFields(after);
        assert Fields(s) == [w] + Fields(after);
        TextOfWords(w, Fields(after));
        TextAppend(w, after);
        assert w + after == s;
      }
    }
  }

  lemma TextOfWords(w: string, rest: seq<string>)
    ensures Text(Join([w] + rest, " ")) == Text(w) + Text(Join(rest, " "))
  {
    if rest == [] {
      assert [w] + rest == [w];
      assert Text(w) + "" == Text(w);
    } else {
      JoinTwoFields(w, rest);
      TextAppend(w + " ", Join(rest, " "));
      TextAppend(w, " ");
      assert Text(" ") == Text("") == "";
    }
  }

  lemma {:induction false} TextOfReplaced(j: string)
    ensures Text(ReplaceAll(j, " ;", ";")) == Text(j)
    decreases |j|
  {
    if At(j, " ;", 0) {
      PairAt(j);
      TextOfReplaced(j[2..]);
      TextAppend(";", ReplaceAll(j[2..], " ;", ";"));
      TextAppend(" ;", j[2..]);
      assert " ;" + j[2..] == j;
      assert Text(" ;") == Text(";") by {
        assert " ;"[1..] == ";";
      }
    } else if j != "" {
      TextOfReplaced(j[1..]);
      TextAppend([j[0]], ReplaceAll(j[1..], " ;", ";"));
      TextAppend([j[0]], j[1..]);
      assert [j[0]] + j[1..] == j;
    }
  }

  /** Tidying changes nothing but white space, and leaves no white space but single blanks. */
  lemma TidyKeepsText(s: string)
    ensures Text(Tidy(s)) == Text(s)
    ensures forall c <- Tidy(s) :: c in BLANKS ==> c == ' '
  {
    TextOfFields(s);
    TextOfReplaced(Join(Fields(s), " "));
    TidyIsTidy(s);
    forall c | c in Tidy(s) && c in BLANKS
      ensures c == ' '
    {
      SpacesAreBlanks(c);
    }
  }

  /** The words, those that start with a semicolon put onto the word before them. */
  function Glued(words: seq<string>): (r: seq<string>)
    ensures words != [] ==> r != []
  {
    if |words| < 2 then words
    else
      var rest := Glued(words[1..]);
      if words[1] != "" && words[1][0] == ';' then [words[0] + rest[0]] + rest[1..] else [words[0]] + rest
  }

  predicate IsWord(w: string) {
    w != "" && forall i :: 0 <= i < |w| ==> !IsSpace(w[i])
  }

  lemma {:induction false} FieldsAreWords(s: string)
    ensures forall i :: 0 <= i < |Fields(s)| ==> IsWord(Fields(s)[i])
    decreases |s|
  {
    if s != "" {
      FieldsAreWords(if IsSpace(s[0]) then s[1..] else s[|Word(s)|..]);
    }
  }

  lemma {:induction false} ReplaceAfterWord(w: string, rest: string)
    requires forall i :: 0 <= i < |w| ==> !IsSpace(w[i])
    ensures ReplaceAll(w + rest, " ;", ";") == w + ReplaceAll(rest, " ;", ";")
    decreases |w|
  {
    if w == "" {
      assert w + rest == rest;
    } else {
      assert (w + rest)[0 + 0] != " ;"[0];
      assert (w + rest)[1..] == w[1..] + rest;
      ReplaceAfterWord(w[1..], rest);
    }
  }

  /** The space before a word stays unless the word starts with a semicolon. */
  lemma ReplaceAfterSpace(next: string)
    requires next != "" && !IsSpace(next[0])
    ensures ReplaceAll(" " + next, " ;", ";") == (if next[0] == ';' then "" else " ") + ReplaceAll(next, " ;", ";")
  {
    var s := " " + next;
    assert s[1..] == next && s[2..] == next[1..];
    assert next[0 + 0] != " ;"[0];
    if next[0] == ';' {
      assert forall k :: 0 <= k < 2 ==> s[0 + k] == " ;"[k];
      assert At(s, " ;", 0);
    } else {
      assert s[0 + 1] != " ;"[1];
    }
  }

  lemma JoinOnto(w: string, parts: seq<string>)
    requires parts != []
    ensures Join([w + parts[0]] + parts[1..], " ") == w + Join(parts, " ")
  {
    var longer := [w + parts[0]] + parts[1..];
    if |parts| > 1 {
      assert longer[1..] == parts[1..];
      assert (w + parts[0]) + " " + Join(parts[1..], " ") == w + (parts[0] + " " + Join(parts[1..], " "));
    }
  }

  lemma {:induction false} GluedJoin(words: seq<string>)
    requires forall i :: 0 <= i < |words| ==> IsWord(words[i])
    ensures ReplaceAll(Join(words, " "), " ;", ";") == Join(Glued(words), " ")
  {
    if words == [] {
    } else if |words| == 1 {
      ReplaceAfterWord(words[0], "");
      assert words[0] + "" == words[0];
    } else {
      GluedJoin(words[1..]);
      GluedOne(words[0], words[1..], Glued(words[1..]));
    }
  }

  lemma GluedOne(w: string, words: seq<string>, glued: seq<string>)
    requires IsWord(w) && words != [] && IsWord(words[0]) && glued != []
    requires ReplaceAll(Join(words, " "), " ;", ";") == Join(glued, " ")
    ensures ReplaceAll(w + " " + Join(words, " "), " ;", ";")
            == Join(if words[0][0] == ';' then [w + glued[0]] + glued[1..] else [w] + glued, " ")
  {
    var tail := Join(words, " ");
    FirstOfJoin(words);
    assert w + " " + tail == w + (" " + tail);
    ReplaceAfterWord(w, " " + tail);
    ReplaceAfterSpace(tail);
    if words[0][0] == ';' {
      JoinOnto(w, glued);
      assert w + ("" + Join(glued, " ")) == w + Join(glued, " ");
    } else {
      assert ([w] + glued)[1..] == glued;
      assert w + " " + Join(glued, " ") == w + (" " + Join(glued, " "));
    }
  }

  lemma FirstOfJoin(words: seq<string>)
    requires words != [] && IsWord(words[0])
    ensures Join(words, " ") != "" && Join(words, " ")[0] == words[0][0] && !IsSpace(words[0][0])
  {
  }

  /** Tidying keeps the words apart: one blank between any two, but none before a semicolon. */
  lemma TidyIsGlued(s: string)
    ensures Tidy(s) == Join(Glued(Fields(s)), " ")
  {
    FieldsAreWords(s);
    GluedJoin(Fields(s));
  }

  // ---- What is left of placeholders -----------------------------------------------------

  /** What is at a place of a part is at the shifted place of the whole. */
  lemma AtPart(s: string, at: nat, part: string, p: string, i: nat)
    requires at + |part| <= |s| && s[at..at + |part|] == part && i + |p| <= |part|
    ensures At(part, p, i) <==> At(s, p, at + i)
  {
    forall k | 0 <= k < |p|
      ensures s[at + i + k] == p[k] <==> part[i + k] == p[k]
    {
      assert s[at..at + |part|][i + k] == s[at + i + k];
    }
  }

  lemma HasChar(s: string, p: string, i: nat, m: nat)
    requires At(s, p, i) && i <= m < i + |p|
    ensures s[m] in p
  {
    assert s[i + (m - i)] == p[m - i];
  }

  /** A pattern is in no text across a character that it does not hold. */
  lemma Separated(a: string, c: char, b: string, p: string)
    requires p != "" && c !in p
    ensures Contains(a + [c] + b, p) <==> Contains(a, p) || Contains(b, p)
  {
    var s, from := a + [c] + b, |a| + 1;
    assert s[0..0 + |a|] == a && s[from..from + |b|] == b;
    if i :| 0 <= i <= |s| && At(s, p, i) {
      if i <= |a| < i + |p| {
        HasChar(s, p, i, |a|);
      }
      if i + |p| <= |a| {
        AtPart(s, 0, a, p, i);
      } else {
        AtPart(s, from, b, p, i - from);
      }
    }
    if i :| 0 <= i <= |a| && At(a, p, i) {
      AtPart(s, 0, a, p, i);
      assert At(s, p, i);
    }
    if i :| 0 <= i <= |b| && At(b, p, i) {
      AtPart(s, from, b, p, i);
      assert At(s, p, from + i);
    }
  }

  lemma EmptyHasNone(p: string)
    requires p != ""
    ensures !Contains("", p)
  {
  }

  /** A pattern without white space and semicolons. */
  predicate Solid(p: string) {
    p != "" && forall i :: 0 <= i < |p| ==> !IsSpace(p[i]) && p[i] != ';'
  }

  predicate OneHas(words: seq<string>, p: string) {
    words != [] && (Contains(words[0], p) || OneHas(words[1..], p))
  }

  lemma {:induction false} FieldsHave(s: string, p: string)
    requires Solid(p)
    ensures OneHas(Fields(s), p) <==> Contains(s, p)
    decreases |s|
  {
    EmptyHasNone(p);
    if s == "" {
    } else if IsSpace(s[0]) {
      assert "" + [s[0]] + s[1..] == s;
      Separated("", s[0], s[1..], p);
      FieldsHave(s[1..], p);
    } else {
      var w := Word(s);
      FieldsHave(s[|w|..], p);
      assert Fields(s)[1..] == Fields(s[|w|..]);
      if |w| < |s| {
        var rest := s[|w| + 1..];
        assert "" + [s[|w|]] + rest == s[|w|..] && w + [s[|w|]] + rest == s;
        Separated("", s[|w|], rest, p);
        Separated(w, s[|w|], rest, p);
      } else {
        assert w == s;
      }
    }
  }

  lemma {:induction false} JoinedHave(words: seq<string>, p: string)
    requires Solid(p)
    ensures Contains(Join(words, " "), p) <==> OneHas(words, p)
  {
    EmptyHasNone(p);
    if |words| > 1 {
      JoinedHave(words[1..], p);
      Separated(words[0], ' ', Join(words[1..], " "), p);
      assert words[0] + [' '] + Join(words[1..], " ") == Join(words, " ");
    } else if |words| == 1 {
      assert words[1..] == [];
    }
  }

  lemma {:induction false} GluedHave(words: seq<string>, p: string)
    requires Solid(p)
    ensures OneHas(Glued(words), p) <==> OneHas(words, p)
    ensures words != [] && words[0] != "" ==> Glued(words)[0] != "" && Glued(words)[0][0] == words[0][0]
  {
    if |words| >= 2 {
      var rest := Glued(words[1..]);
      GluedHave(words[1..], p);
      if words[1] != "" && words[1][0] == ';' {
        GlueHas(words[0], rest, p);
      } else {
        assert ([words[0]] + rest)[1..] == rest;
      }
    }
  }

  lemma GlueHas(w: string, rest: seq<string>, p: string)
    requires Solid(p) && rest != [] && rest[0] != "" && rest[0][0] == ';'
    ensures OneHas([w + rest[0]] + rest[1..], p) <==> Contains(w, p) || OneHas(rest, p)
  {
    var tail := rest[0][1..];
    EmptyHasNone(p);
    assert w + [';'] + tail == w + rest[0] && "" + [';'] + tail == rest[0];
    Separated(w, ';', tail, p);
    Separated("", ';', tail, p);
    assert ([w + rest[0]] + rest[1..])[1..] == rest[1..];
  }

  /** Tidying neither makes nor breaks a placeholder. */
  lemma TidyHas(s: string, p: string)
    requires Solid(p)
    ensures Contains(Tidy(s), p) <==> Contains(s, p)
  {
    TidyIsGlued(s);
    JoinedHave(Glued(Fields(s)), p);
    GluedHave(Fields(s), p);
    FieldsHave(s, p);
  }

  /** The policy without its nonce sources and placeholders. */
  function Stripped(policy: string): string {
    Join(Segments(Join(Segments(policy, SOURCE), ""), PLACEHOLDER), "")
  }

  /** Text in front of which nothing is replaced stays. */
  lemma {:induction false} TextStays(front: string, rest: string)
    requires forall i :: 0 <= i < |front| ==> !At(front + rest, PLACEHOLDER, i)
    ensures ReplaceAll(front + rest, PLACEHOLDER, "") == front + ReplaceAll(rest, PLACEHOLDER, "")
    decreases |front|
  {
    if front == "" {
      assert front + rest == rest;
    } else {
      var s, t := front + rest, front[1..] + rest;
      assert s[1..] == t;
      assert !At(s, PLACEHOLDER, 0);
      forall i | 0 <= i < |front[1..]|
        ensures !At(t, PLACEHOLDER, i)
      {
        assert !At(s, PLACEHOLDER, i + 1);
        if i + |PLACEHOLDER| <= |t| {
          var k :| 0 <= k < |PLACEHOLDER| && s[i + 1 + k] != PLACEHOLDER[k];
          assert t[i + k] == s[i + 1 + k];
        }
      }
      TextStays(front[1..], rest);
    }
  }

  lemma StrippedTwice(policy: string)
    ensures Stripped(policy) == ReplaceAll(ReplaceAll(policy, SOURCE, ""), PLACEHOLDER, "")
  {
    ReplaceIsJoin(policy, SOURCE, "");
    ReplaceIsJoin(ReplaceAll(policy, SOURCE, ""), PLACEHOLDER, "");
  }

  lemma NoSource(policy: string)
    requires forall i :: 0 <= i <= |policy| ==> !At(policy, SOURCE, i)
    ensures Stripped(policy) == ReplaceAll(policy, PLACEHOLDER, "")
  {
    StrippedTwice(policy);
    NothingToReplace(policy, SOURCE, "");
  }

  lemma PlaceholderTaken(rest: string)
    ensures ReplaceAll(PLACEHOLDER + rest, PLACEHOLDER, "") == ReplaceAll(rest, PLACEHOLDER, "")
  {
    var s := PLACEHOLDER + rest;
    assert At(s, PLACEHOLDER, 0) by {
      assert forall k :: 0 <= k < |PLACEHOLDER| ==> s[0 + k] == PLACEHOLDER[k];
    }
    assert s[|PLACEHOLDER|..] == rest;
  }

  lemma NotAt(s: string, t: string, i: nat, k: nat)
    requires k < |t| && (i + k >= |s| || s[i + k] != t[k])
    ensures !At(s, t, i)
  {
  }

  lemma SolidPatterns()
    ensures Solid(PLACEHOLDER) && Solid(EMPTY_SOURCE)
  {
  }

  /** A placeholder with another one around it. */
  function Nested(): string {
    "{{non" + (PLACEHOLDER + "ce}}")
  }

  lemma NestedFront(front: string, rest: string)
    requires front == "{{non" && rest != "" && rest[0] == '{'
    ensures ReplaceAll(front + rest, PLACEHOLDER, "") == front + ReplaceAll(rest, PLACEHOLDER, "")
  {
    var s := front + rest;
    NotAt(s, PLACEHOLDER, 0, 5);
    NotAt(s, PLACEHOLDER, 1, 1);
    NotAt(s, PLACEHOLDER, 2, 0);
    NotAt(s, PLACEHOLDER, 3, 0);
    NotAt(s, PLACEHOLDER, 4, 0);
    TextStays(front, rest);
  }

  lemma NoQuote(s: string)
    requires '\'' !in s
    ensures Stripped(s) == ReplaceAll(s, PLACEHOLDER, "")
  {
    forall i | 0 <= i <= |s|
      ensures !At(s, SOURCE, i)
    {
      NotAt(s, SOURCE, i, 0);
    }
    NoSource(s);
  }

  lemma NestedReplaced(front: string, back: string)
    requires front == "{{non" && |back| < |PLACEHOLDER|
    ensures ReplaceAll(front + (PLACEHOLDER + back), PLACEHOLDER, "") == front + back
  {
    NestedFront(front, PLACEHOLDER + back);
    PlaceholderTaken(back);
    NoneInEnd(back);
  }

  lemma ClosesUp(front: string, back: string)
    requires front == "{{non" && |back| < |PLACEHOLDER| && '\'' !in back
    ensures Stripped(front + (PLACEHOLDER + back)) == front + back
  {
    assert '\'' !in front && '\'' !in PLACEHOLDER;
    NoQuote(front + (PLACEHOLDER + back));
    NestedReplaced(front, back);
  }

  lemma NestedStripped()
    ensures Stripped(Nested()) == PLACEHOLDER
  {
    ClosesUp("{{non", "ce}}");
    assert "{{non" + "ce}}" == PLACEHOLDER;
  }

  lemma NoneInEnd(s: string)
    requires |s| < |PLACEHOLDER|
    ensures ReplaceAll(s, PLACEHOLDER, "") == s
  {
    NothingToReplace(s, PLACEHOLDER, "");
  }

  lemma HasItself(p: string)
    requires Solid(p)
    ensures Contains(Tidy(p), p)
  {
    assert At(p, p, 0);
    TidyHas(p, p);
  }

  /** Text from which a placeholder was taken closes up; the header may then show one that was spread around it. */
  lemma PlaceholderCloses()
    ensures Contains(Tidy(Stripped(Nested())), PLACEHOLDER)
  {
    NestedStripped();
    SolidPatterns();
    HasItself(PLACEHOLDER);
  }

  /** A nonce source with two placeholders. */
  function Doubled(): string {
    "'nonce-" + (PLACEHOLDER + (PLACEHOLDER + "'"))
  }

  /** Text with quotes at its ends only is at no place a pattern of another length with quotes at its ends. */
  lemma QuotesApart(s: string, t: string, i: nat)
    requires 1 < |t| != |s| && t[0] == t[|t| - 1] == '\''
    requires forall m :: 0 < m < |s| - 1 ==> s[m] != '\''
    ensures !At(s, t, i)
  {
    if 0 < i < |s| - 1 {
      NotAt(s, t, i, 0);
    } else {
      NotAt(s, t, i, |t| - 1);
    }
  }

  lemma QuotedFree(middle: string, t: string)
    requires '\'' !in middle && 1 < |t| != |middle| + 2 && t[0] == t[|t| - 1] == '\''
    ensures forall i :: 0 <= i <= |middle| + 2 ==> !At("'" + middle + "'", t, i)
  {
    var s := "'" + middle + "'";
    assert forall m :: 0 < m < |s| - 1 ==> s[m] == middle[m - 1];
    forall i | 0 <= i <= |middle| + 2
      ensures !At(s, t, i)
    {
      QuotesApart(s, t, i);
    }
  }

  lemma OneQuoted(middle: string)
    requires '\'' !in middle && |middle| + 2 != |SOURCE|
    ensures Stripped("'" + middle + "'") == ReplaceAll("'" + middle + "'", PLACEHOLDER, "")
  {
    QuotedFree(middle, SOURCE);
    NoSource("'" + middle + "'");
  }

  lemma TextBefore(front: string, rest: string)
    requires NoBraces(front)
    ensures ReplaceAll(front + rest, PLACEHOLDER, "") == front + ReplaceAll(rest, PLACEHOLDER, "")
  {
    forall i | 0 <= i < |front|
      ensures !At(front + rest, PLACEHOLDER, i)
    {
      NotAt(front + rest, PLACEHOLDER, i, 0);
    }
    TextStays(front, rest);
  }

  lemma BothTaken(front: string, back: string)
    requires NoBraces(front) && |back| < |PLACEHOLDER|
    ensures ReplaceAll(front + (PLACEHOLDER + (PLACEHOLDER + back)), PLACEHOLDER, "") == front + back
  {
    TextBefore(front, PLACEHOLDER + (PLACEHOLDER + back));
    PlaceholderTaken(PLACEHOLDER + back);
    PlaceholderTaken(back);
    NoneInEnd(back);
  }

  lemma DoubledTaken(name: string)
    requires '\'' !in name && NoBraces(name) && |name| > 0
    ensures Stripped("'" + name + (PLACEHOLDER + (PLACEHOLDER + "'"))) == "'" + name + "'"
  {
    var middle := name + (PLACEHOLDER + PLACEHOLDER);
    assert "'" + name + (PLACEHOLDER + (PLACEHOLDER + "'")) == "'" + middle + "'";
    OneQuoted(middle);
    BothTaken("'" + name, "'");
  }

  lemma DoubledStripped()
    ensures Stripped(Doubled()) == EMPTY_SOURCE
  {
    DoubledTaken("nonce-");
    assert "'" + "nonce-" == "'nonce-" && "'nonce-" + "'" == EMPTY_SOURCE;
  }

  /** And it may keep a nonce source without a nonce. */
  lemma EmptySourceStays()
    ensures Contains(Tidy(Stripped(Doubled())), EMPTY_SOURCE)
  {
    DoubledStripped();
    SolidPatterns();
    HasItself(EMPTY_SOURCE);
  }

  /** Braces stand only in placeholders. */
  predicate Neat(s: string)
    decreases |s|
  {
    || s == ""
    || (At(s, PLACEHOLDER, 0) && Neat(s[|PLACEHOLDER|..]))
    || (s[0] != '{' && s[0] != '}' && Neat(s[1..]))
  }

  lemma NeatOn(c: char, s: string)
    requires c != '{' && c != '}'
    ensures Neat([c] + s) <==> Neat(s)
  {
    var t := [c] + s;
    assert t[1..] == s && t[0 + 0] != PLACEHOLDER[0];
  }

  lemma NeatPlaceholder(s: string)
    ensures Neat(PLACEHOLDER + s) <==> Neat(s)
  {
    var t := PLACEHOLDER + s;
    assert t[|PLACEHOLDER|..] == s;
    assert forall k :: 0 <= k < |PLACEHOLDER| ==> t[0 + k] == PLACEHOLDER[k];
    assert t[0] == '{';
  }

  lemma {:induction false} NeatText(front: string, s: string)
    requires NoBraces(front)
    ensures Neat(front + s) <==> Neat(s)
    decreases |front|
  {
    if front == "" {
      assert front + s == s;
    } else {
      NeatOn(front[0], front[1..] + s);
      NeatText(front[1..], s);
      assert [front[0]] + (front[1..] + s) == front + s;
    }
  }

  lemma NeatSource(s: string)
    ensures Neat(SOURCE + s) <==> Neat(s)
  {
    assert SOURCE + s == "'nonce-" + (PLACEHOLDER + ("'" + s));
    NeatText("'nonce-", PLACEHOLDER + ("'" + s));
    NeatPlaceholder("'" + s);
    NeatText("'", s);
  }

  /** No source starts inside a placeholder. */
  lemma {:induction false} PlaceholderStays(front: string, rest: string)
    requires forall i :: 0 <= i < |front| ==> front[i] != SOURCE[0]
    ensures ReplaceAll(front + rest, SOURCE, "") == front + ReplaceAll(rest, SOURCE, "")
    decreases |front|
  {
    if front == "" {
      assert front + rest == rest;
    } else {
      assert (front + rest)[0 + 0] != SOURCE[0] && (front + rest)[1..] == front[1..] + rest;
      PlaceholderStays(front[1..], rest);
    }
  }

  /** A source that stands in text without quotes and braces is dropped whole. */
  lemma SourceDropped(front: string, back: string)
    requires '\'' !in front && '\'' !in back && NoBraces(front) && NoBraces(back)
    ensures Stripped(front + ("'nonce-{{nonce}}'" + back)) == front + back
  {
    assert SOURCE == "'nonce-{{nonce}}'";
    StrippedTwice(front + (SOURCE + back));
    PlaceholderStays(front, SOURCE + back);
    SourceTaken(back);
    forall i | 0 <= i <= |back|
      ensures !At(back, SOURCE, i)
    {
      NotAt(back, SOURCE, i, 0);
    }
    NothingToReplace(back, SOURCE, "");
    forall i | 0 <= i <= |front + back|
      ensures !At(front + back, PLACEHOLDER, i)
    {
      NotAt(front + back, PLACEHOLDER, i, 0);
    }
    NothingToReplace(front + back, PLACEHOLDER, "");
  }

  lemma SourceTaken(rest: string)
    ensures ReplaceAll(SOURCE + rest, SOURCE, "") == ReplaceAll(rest, SOURCE, "")
  {
    var s := SOURCE + rest;
    assert At(s, SOURCE, 0) by {
      assert forall k :: 0 <= k < |SOURCE| ==> s[0 + k] == SOURCE[k];
    }
    assert s[|SOURCE|..] == rest;
  }

  /** Taking the sources out of a neat policy leaves it neat. */
  lemma {:induction false} NeatWithoutSources(s: string)
    requires Neat(s)
    ensures Neat(ReplaceAll(s, SOURCE, ""))
    decreases |s|
  {
    if At(s, SOURCE, 0) {
      var rest := s[|SOURCE|..];
      AtFront(s, SOURCE);
      NeatSource(rest);
      NeatWithoutSources(rest);
      assert "" + ReplaceAll(rest, SOURCE, "") == ReplaceAll(rest, SOURCE, "");
    } else if At(s, PLACEHOLDER, 0) {
      var rest := s[|PLACEHOLDER|..];
      AtFront(s, PLACEHOLDER);
      NeatPlaceholder(rest);
      NeatWithoutSources(rest);
      PlaceholderStays(PLACEHOLDER, rest);
      NeatPlaceholder(ReplaceAll(rest, SOURCE, ""));
    } else if s != "" {
      NeatWithoutSources(s[1..]);
      NeatOn(s[0], ReplaceAll(s[1..], SOURCE, ""));
    }
  }

  /** Taking the placeholders out leaves no brace. */
  lemma {:induction false} NeatWithoutPlaceholders(s: string)
    requires Neat(s)
    ensures NoBraces(ReplaceAll(s, PLACEHOLDER, ""))
    decreases |s|
  {
    if At(s, PLACEHOLDER, 0) {
      AtFront(s, PLACEHOLDER);
      NeatPlaceholder(s[|PLACEHOLDER|..]);
      NeatWithoutPlaceholders(s[|PLACEHOLDER|..]);
    } else if s != "" {
      NeatWithoutPlaceholders(s[1..]);
    }
  }

  /** A policy in which braces stand only in placeholders leaves none of them in the header. */
  lemma NeatLeavesNone(policy: string)
    requires Neat(policy)
    ensures !Contains(Tidy(Stripped(policy)), PLACEHOLDER)
  {
    StrippedTwice(policy);
    NeatWithoutSources(policy);
    NeatWithoutPlaceholders(ReplaceAll(policy, SOURCE, ""));
    var s := Stripped(policy);
    forall i | 0 <= i <= |s|
      ensures !At(s, PLACEHOLDER, i)
    {
      NotAt(s, PLACEHOLDER, i, 0);
    }
    TidyAll(s);
  }

  // ---- The handler ----------------------------------------------------------------------

  /** The rewriting without a nonce. */
  method WithoutNonce(policy: string) returns (value: string)
    ensures IsTidy(value) && value == Join(Glued(Fields(Stripped(policy))), " ")
    ensures value == Tidy(Stripped(policy)) && Text(value) == Text(Stripped(policy))
    ensures Contains(value, PLACEHOLDER) <==> Contains(Stripped(policy), PLACEHOLDER)
    ensures Contains(value, EMPTY_SOURCE) <==> Contains(Stripped(policy), EMPTY_SOURCE)
  {
    value := ReplaceAll(policy, SOURCE, "");
    value := ReplaceAll(value, PLACEHOLDER, "");
    StrippedTwice(policy);
    TidyAll(value);
    TidyKeepsText(value);
    value := Join(Fields(value), " ");
    value := ReplaceAll(value, " ;", ";");
  }

  lemma TidyAll(s: string)
    ensures IsTidy(Tidy(s)) && Tidy(s) == Join(Glued(Fields(s)), " ")
    ensures Contains(Tidy(s), PLACEHOLDER) <==> Contains(s, PLACEHOLDER)
    ensures Contains(Tidy(s), EMPTY_SOURCE) <==> Contains(s, EMPTY_SOURCE)
  {
    SolidPatterns();
    TidyIsTidy(s);
    TidyIsGlued(s);
    TidyHas(s, PLACEHOLDER);
    TidyHas(s, EMPTY_SOURCE);
  }

  /** The header value that the middleware sets; an empty nonce means there is none on the context. */
  method HeaderValue(policy: string, nonce: string) returns (value: string)
    ensures !Contains(policy, PLACEHOLDER) ==> value == policy
    ensures Contains(policy, PLACEHOLDER) && nonce != "" ==> value == Join(Segments(policy, PLACEHOLDER), nonce)
    ensures Contains(policy, PLACEHOLDER) && nonce == "" ==>
              && IsTidy(value)
              && value == Join(Glued(Fields(Stripped(policy))), " ") && Text(value) == Text(Stripped(policy))
              && (Contains(value, PLACEHOLDER) <==> Contains(Stripped(policy), PLACEHOLDER))
              && (Contains(value, EMPTY_SOURCE) <==> Contains(Stripped(policy), EMPTY_SOURCE))
  {
    value := policy;
    if Contains(policy, PLACEHOLDER) {
      if nonce == "" {
        value := WithoutNonce(value);
      } else {
        ReplaceIsJoin(value, PLACEHOLDER, nonce);
        value := ReplaceAll(value, PLACEHOLDER, nonce);
      }
    }
  }
}
