/** The functions of Go's strings package that the repository's string handling rests on. */
module Strings {

  predicate At(s: string, t: string, i: nat) {
    i + |t| <= |s| && forall k :: 0 <= k < |t| ==> s[i + k] == t[k]
  }

  /** `strings.Contains`. */
  predicate Contains(s: string, t: string) {
    exists i | 0 <= i <= |s| :: At(s, t, i)
  }

  /** `strings.ReplaceAll`: occurrences are taken from the left and do not overlap. */
  function ReplaceAll(s: string, old_: string, new_: string): string
    requires old_ != ""
    decreases |s|
  {
    if At(s, old_, 0) then new_ + ReplaceAll(s[|old_|..], old_, new_)
    else if s == "" then ""
    else [s[0]] + ReplaceAll(s[1..], old_, new_)
  }

  /** The text around the occurrences of `sep`, taken from the left. */
  function Segments(s: string, sep: string): (r: seq<string>)
    requires sep != ""
    ensures r != []
    decreases |s|
  {
    if At(s, sep, 0) then [""] + Segments(s[|sep|..], sep)
    else if s == "" then [""]
    else
      var rest := Segments(s[1..], sep);
      [[s[0]] + rest[0]] + rest[1..]
  }

  /** `strings.Join`. */
  function Join(parts: seq<string>, sep: string): string {
    if parts == [] then ""
    else if |parts| == 1 then parts[0]
    else parts[0] + sep + Join(parts[1..], sep)
  }

  lemma JoinFirst(c: char, parts: seq<string>, sep: string)
    requires parts != []
    ensures Join([[c] + parts[0]] + parts[1..], sep) == [c] + Join(parts, sep)
  {
    var longer := [[c] + parts[0]] + parts[1..];
    if |parts| > 1 {
      assert longer[1..] == parts[1..];
      assert ([c] + parts[0]) + sep + Join(parts[1..], sep) == [c] + (parts[0] + sep + Join(parts[1..], sep));
    }
  }

  lemma JoinEmptyFirst(parts: seq<string>, sep: string)
    requires parts != []
    ensures Join([""] + parts, sep) == sep + Join(parts, sep)
  {
    assert ([""] + parts)[1..] == parts;
  }

  /** Replacing is joining the same text around something else. */
  lemma {:induction false} ReplaceIsJoin(s: string, old_: string, new_: string)
    requires old_ != ""
    ensures ReplaceAll(s, old_, new_) == Join(Segments(s, old_), new_)
    decreases |s|
  {
    if At(s, old_, 0) {
      ReplaceIsJoin(s[|old_|..], old_, new_);
      JoinEmptyFirst(Segments(s[|old_|..], old_), new_);
    } else if s != "" {
      ReplaceIsJoin(s[1..], old_, new_);
      JoinFirst(s[0], Segments(s[1..], old_), new_);
    }
  }

  /** Joined around the separator the text is the string again. */
  lemma {:induction false} SegmentsJoin(s: string, sep: string)
    requires sep != ""
    ensures Join(Segments(s, sep), sep) == s
    decreases |s|
  {
    if At(s, sep, 0) {
      SegmentsJoin(s[|sep|..], sep);
      JoinEmptyFirst(Segments(s[|sep|..], sep), sep);
      AtFront(s, sep);
    } else if s != "" {
      SegmentsJoin(s[1..], sep);
      JoinFirst(s[0], Segments(s[1..], sep), sep);
    }
  }

  lemma AtFront(s: string, t: string)
    requires At(s, t, 0)
    ensures s == t + s[|t|..]
  {
    assert forall k :: 0 <= k < |t| ==> s[0 + k] == s[k];
  }

  /** No text between occurrences has one in it. */
  lemma {:induction false} SegmentsFree(s: string, sep: string)
    requires sep != ""
    ensures Segments(s, sep)[0] <= s
    ensures forall p <- Segments(s, sep) :: !Contains(p, sep)
    decreases |s|
  {
    if At(s, sep, 0) {
      SegmentsFree(s[|sep|..], sep);
    } else if s != "" {
      SegmentsFree(s[1..], sep);
      FirstFree(s, Segments(s[1..], sep)[0], sep);
    }
  }

  lemma FirstFree(s: string, rest: string, sep: string)
    requires s != "" && rest <= s[1..] && !Contains(rest, sep) && !At(s, sep, 0) && sep != ""
    ensures !Contains([s[0]] + rest, sep) && [s[0]] + rest <= s
  {
    var first := [s[0]] + rest;
    forall i | 0 <= i <= |first|
      ensures !At(first, sep, i)
    {
      if i == 0 {
        if |sep| <= |first| {
          var k :| 0 <= k < |sep| && s[0 + k] != sep[k];
          assert first[0 + k] == s[0 + k];
        }
      } else {
        assert !At(rest, sep, i - 1);
        if i + |sep| <= |first| {
          var k :| 0 <= k < |sep| && rest[i - 1 + k] != sep[k];
          assert first[i + k] == rest[i - 1 + k];
        }
      }
    }
  }

  lemma {:induction false} NothingToReplace(s: string, old_: string, new_: string)
    requires old_ != "" && forall i :: 0 <= i <= |s| ==> !At(s, old_, i)
    ensures ReplaceAll(s, old_, new_) == s
    decreases |s|
  {
    assert !At(s, old_, 0);
    if s != "" {
      forall i | 0 <= i <= |s[1..]|
        ensures !At(s[1..], old_, i)
      {
        assert !At(s, old_, i + 1);
        if i + |old_| <= |s[1..]| {
          var k :| 0 <= k < |old_| && s[i + 1 + k] != old_[k];
          assert s[1..][i + k] != old_[k];
        }
      }
      NothingToReplace(s[1..], old_, new_);
    }
  }

  /** `strings.TrimPrefix`. */
  function TrimPrefix(s: string, prefix: string): string {
    if prefix <= s then s[|prefix|..] else s
  }

  /** Go compares strings byte by byte. */
  predicate Less(s: string, t: string) {
    t != "" && (s == "" || s[0] < t[0] || (s[0] == t[0] && Less(s[1..], t[1..])))
  }

  lemma {:induction false} LessTotal(s: string, t: string)
    ensures s == t || Less(s, t) || Less(t, s)
    ensures !(Less(s, t) && Less(t, s)) && !Less(s, s)
  {
    if s != "" && t != "" {
      LessTotal(s[1..], t[1..]);
    }
    LessIrreflexive(s);
  }

  lemma {:induction false} LessIrreflexive(s: string)
    ensures !Less(s, s)
  {
    if s != "" {
      LessIrreflexive(s[1..]);
    }
  }

  lemma {:induction false} LessTransitive(s: string, t: string, u: string)
    requires Less(s, t) && Less(t, u)
    ensures Less(s, u)
  {
    if s != "" && s[0] == t[0] == u[0] {
      LessTransitive(s[1..], t[1..], u[1..]);
    }
  }

  /** A common prefix does not matter. */
  lemma {:induction false} LessAfterPrefix(p: string, s: string, t: string)
    ensures Less(p + s, p + t) <==> Less(s, t)
  {
    if p == "" {
      assert p + s == s && p + t == t;
    } else {
      LessAfterPrefix(p[1..], s, t);
      assert (p + s)[1..] == p[1..] + s && (p + t)[1..] == p[1..] + t;
    }
  }

  /** Of two strings with prefixes of one length, the prefixes decide first. */
  lemma {:induction false} LessSnoc(s: string, t: string, c: char, d: char)
    requires |s| == |t|
    ensures Less(s + [c], t + [d]) <==> Less(s, t) || (s == t && c < d)
  {
    if s != "" {
      LessSnoc(s[1..], t[1..], c, d);
      assert (s + [c])[1..] == s[1..] + [c] && (t + [d])[1..] == t[1..] + [d];
      assert s == t <==> s[0] == t[0] && s[1..] == t[1..];
    }
  }
}
