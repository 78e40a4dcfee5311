/**
 internal/util/base64.go: `Base64Decode`, and the four encodings of RFC 4648 that it is
 meant to read: standard (section 4) or URL alphabet (section 5), padded or unpadded
 (section 3.2).
 */
module Base64 {
  import opened Wrappers
  import opened Bytes
  import Strings

  type sextet = x: int | 0 <= x < 64

  /** The character of a 6-bit group. The alphabets differ in the last two places only. */
  function Symbol(x: sextet, url: bool): char {
    if x < 26 then 'A' + x as char
    else if x < 52 then 'a' + (x - 26) as char
    else if x < 62 then '0' + (x - 52) as char
    else if x == 62 then (if url then '-' else '+')
    else (if url then '_' else '/')
  }

  /** The 6-bit group of a character of the URL alphabet. */
  function Digit(c: char): Option<sextet> {
    if 'A' <= c <= 'Z' then Some((c - 'A') as int)
    else if 'a' <= c <= 'z' then Some((c - 'a') as int + 26)
    else if '0' <= c <= '9' then Some((c - '0') as int + 52)
    else if c == '-' then Some(62)
    else if c == '_' then Some(63)
    else None
  }

  /** The first, second, third and fourth 6-bit group of up to three bytes; missing bytes count as zero. */
  function Group(a: byte, b: byte, c: byte): (s: seq<sextet>)
    ensures |s| == 4
  {
    [a as int / 4, a as int % 4 * 16 + b as int / 16, b as int % 16 * 4 + c as int / 64, c as int % 64]
  }

  function Symbols(s: seq<sextet>, url: bool): string {
    seq(|s|, i requires 0 <= i < |s| => Symbol(s[i], url))
  }

  /** One of the four encodings. */
  function Encode(b: bytes, url: bool, padded: bool): string {
    if b == [] then ""
    else if |b| == 1 then Symbols(Group(b[0], 0, 0)[..2], url) + (if padded then "==" else "")
    else if |b| == 2 then Symbols(Group(b[0], b[1], 0)[..3], url) + (if padded then "=" else "")
    else Symbols(Group(b[0], b[1], b[2]), url) + Encode(b[3..], url, padded)
  }

  /** The bytes of a full group of digits; what does not fit the missing bytes is dropped unchecked. */
  function Bytes4(s: seq<sextet>): bytes
    requires |s| == 4
  {
    var w: int, x: int, y: int, z: int := s[0], s[1], s[2], s[3];
    [(w * 4 + x / 16) as byte, (x % 16 * 16 + y / 4) as byte, (y % 4 * 64 + z) as byte]
  }

  function Digits(s: string): Option<seq<sextet>> {
    if s == "" then Some([])
    else
      match (Digit(s[0]), Digits(s[1..]))
      case (Some(d), Some(ds)) => Some([d] + ds)
      case _ => None
  }

  function FromDigits(d: seq<sextet>): Option<bytes> {
    if d == [] then Some([])
    else if |d| == 1 then None
    else if |d| == 2 then Some(Bytes4(d + [0, 0])[..1])
    else if |d| == 3 then Some(Bytes4(d + [0])[..2])
    else
      match FromDigits(d[4..])
      case None => None
      case Some(rest) => Some(Bytes4(d[..4]) + rest)
  }

  /** Line breaks are ignored wherever they stand. */
  function DropNewlines(s: string): string {
    if s == "" then ""
    else (if s[0] == '\r' || s[0] == '\n' then "" else [s[0]]) + DropNewlines(s[1..])
  }

  /** Go's `base64.RawURLEncoding.DecodeString`; None is its error. */
  function RawURLDecode(s: string): Option<bytes> {
    match Digits(DropNewlines(s))
    case None => None
    case Some(d) => FromDigits(d)
  }

  /** One character put for another. */
  function Replace(s: string, from: char, to: char): string {
    seq(|s|, i requires 0 <= i < |s| => if s[i] == from then to else s[i])
  }

  /** `strings.TrimRight(s, "=")`. */
  function TrimPadding(s: string): string {
    if s != "" && s[|s| - 1] == '=' then TrimPadding(s[..|s| - 1]) else s
  }

  /** `Base64Decode`. */
  function Decode(s: string): Option<bytes> {
    RawURLDecode(TrimPadding(Strings.ReplaceAll(Strings.ReplaceAll(s, "+", "-"), "/", "_")))
  }

  /** Replacing strings of one character replaces characters. */
  lemma {:induction false} ReplacedOneByOne(s: string, from: char, to: char)
    ensures Strings.ReplaceAll(s, [from], [to]) == Replace(s, from, to)
    decreases |s|
  {
    if s != "" {
      ReplacedOneByOne(s[1..], from, to);
      var r := Replace(s, from, to);
      assert s[0] == from ==> forall k :: 0 <= k < 1 ==> s[0 + k] == [from][k];
      assert s[0] != from ==> s[0 + 0] != [from][0];
      assert r == [r[0]] + Replace(s[1..], from, to);
    }
  }

  // ---- Encoding and decoding are inverse ---------------------------------------------

  lemma SymbolDigit(x: sextet)
    ensures Digit(Symbol(x, true)) == Some(x)
    ensures Symbol(x, true) !in "+/=\r\n" && Symbol(x, false) !in "-_=\r\n"
    ensures var c := Symbol(x, false); Symbol(x, true) == (if c == '+' then '-' else if c == '/' then '_' else c)
  {
  }

  lemma {:induction false} DigitsCons(x: sextet, rest: string)
    requires Digits(rest).Some?
    ensures Digits([Symbol(x, true)] + rest) == Some([x] + Digits(rest).value)
  {
    SymbolDigit(x);
    assert ([Symbol(x, true)] + rest)[1..] == rest;
  }

  lemma SymbolsCons(s: seq<sextet>, rest: string)
    requires s != []
    ensures Symbols(s, true) + rest == [Symbol(s[0], true)] + (Symbols(s[1..], true) + rest)
  {
    assert Symbols(s, true) == [Symbol(s[0], true)] + Symbols(s[1..], true);
  }

  lemma {:induction false} DigitsOfSymbols(s: seq<sextet>, rest: string)
    requires Digits(rest).Some?
    ensures Digits(Symbols(s, true) + rest) == Some(s + Digits(rest).value)
  {
    if s == [] {
      assert Symbols(s, true) + rest == rest;
      assert s + Digits(rest).value == Digits(rest).value;
    } else {
      DigitsOfSymbols(s[1..], rest);
      DigitsCons(s[0], Symbols(s[1..], true) + rest);
      SymbolsCons(s, rest);
      assert [s[0]] + (s[1..] + Digits(rest).value) == s + Digits(rest).value;
    }
  }

  lemma GroupRoundTrip(a: byte, b: byte, c: byte)
    ensures Bytes4(Group(a, b, c)) == [a, b, c]
  {
    var s := Group(a, b, c);
    var w: int, x: int, y: int, z: int := s[0], s[1], s[2], s[3];
    assert w * 4 + x / 16 == a as int;
    assert x % 16 * 16 + y / 4 == b as int;
    assert y % 4 * 64 + z == c as int;
  }

  lemma {:induction false} GroupRead(g: seq<sextet>, d: seq<sextet>)
    requires |g| == 4 && FromDigits(d).Some?
    ensures FromDigits(g + d) == Some(Bytes4(g) + FromDigits(d).value)
  {
    assert (g + d)[..4] == g && (g + d)[4..] == d;
  }

  lemma {:induction false} RawOne(b: bytes)
    requires |b| == 1
    ensures Digits(Encode(b, true, false)).Some?
    ensures FromDigits(Digits(Encode(b, true, false)).value) == Some(b)
  {
    var g := Group(b[0], 0, 0);
    DigitsOfSymbols(g[..2], "");
    GroupRoundTrip(b[0], 0, 0);
    assert g[..2] + [] == g[..2] && g[..2] + [0, 0] == g;
    assert Encode(b, true, false) == Symbols(g[..2], true) + "";
    assert [b[0], 0, 0][..1] == b;
  }

  lemma {:induction false} RawTwo(b: bytes)
    requires |b| == 2
    ensures Digits(Encode(b, true, false)).Some?
    ensures FromDigits(Digits(Encode(b, true, false)).value) == Some(b)
  {
    var g := Group(b[0], b[1], 0);
    DigitsOfSymbols(g[..3], "");
    GroupRoundTrip(b[0], b[1], 0);
    assert g[..3] + [] == g[..3] && g[..3] + [0] == g;
    assert Encode(b, true, false) == Symbols(g[..3], true) + "";
    assert [b[0], b[1], 0][..2] == b;
  }

  /** The unpadded URL encoding is read back group by group. */
  lemma {:induction false} RawRoundTrip(b: bytes)
    ensures Digits(Encode(b, true, false)).Some?
    ensures FromDigits(Digits(Encode(b, true, false)).value) == Some(b)
  {
    if b == [] {
    } else if |b| == 1 {
      RawOne(b);
    } else if |b| == 2 {
      RawTwo(b);
    } else {
      var g := Group(b[0], b[1], b[2]);
      RawRoundTrip(b[3..]);
      var tail := Encode(b[3..], true, false);
      DigitsOfSymbols(g, tail);
      GroupRead(g, Digits(tail).value);
      GroupRoundTrip(b[0], b[1], b[2]);
      assert [b[0], b[1], b[2]] + b[3..] == b;
    }
  }

  predicate Clean(s: string) {
    forall i :: 0 <= i < |s| ==> s[i] !in "+/=\r\n"
  }

  /** The alphabet is translated, and only padding stands at the end. */
  lemma {:induction false} Translated(b: bytes, url: bool, padded: bool) returns (padding: string)
    ensures Replace(Replace(Encode(b, url, padded), '+', '-'), '/', '_') == Encode(b, true, false) + padding
    ensures forall i :: 0 <= i < |padding| ==> padding[i] == '='
    ensures Clean(Encode(b, true, false))
  {
    var t := Replace(Replace(Encode(b, url, padded), '+', '-'), '/', '_');
    if b == [] {
      padding := "";
    } else if |b| <= 2 {
      padding := TranslatedEnd(b, url, padded);
    } else {
      var g, tail := Group(b[0], b[1], b[2]), Encode(b[3..], url, padded);
      padding := Translated(b[3..], url, padded);
      TranslatedSymbols(g, url, tail);
      assert t == Symbols(g, true) + (Encode(b[3..], true, false) + padding);
    }
  }

  lemma {:induction false} TranslatedEnd(b: bytes, url: bool, padded: bool) returns (padding: string)
    requires 1 <= |b| <= 2
    ensures Replace(Replace(Encode(b, url, padded), '+', '-'), '/', '_') == Encode(b, true, false) + padding
    ensures forall i :: 0 <= i < |padding| ==> padding[i] == '='
    ensures Clean(Encode(b, true, false))
  {
    var g := if |b| == 1 then Group(b[0], 0, 0)[..2] else Group(b[0], b[1], 0)[..3];
    padding := if !padded then "" else if |b| == 1 then "==" else "=";
    assert Encode(b, url, padded) == Symbols(g, url) + padding;
    assert Encode(b, true, false) == Symbols(g, true);
    TranslatedSymbols(g, url, padding);
  }

  lemma TranslatedSymbols(g: seq<sextet>, url: bool, tail: string)
    ensures Replace(Replace(Symbols(g, url) + tail, '+', '-'), '/', '_')
            == Symbols(g, true) + Replace(Replace(tail, '+', '-'), '/', '_')
    ensures Clean(Symbols(g, true))
  {
    forall i | 0 <= i < |g| {
      SymbolDigit(g[i]);
    }
  }

  lemma {:induction false} TrimmedOff(s: string, padding: string)
    requires forall i :: 0 <= i < |padding| ==> padding[i] == '='
    requires s != "" ==> s[|s| - 1] != '='
    ensures TrimPadding(s + padding) == s
  {
    if padding == "" {
      assert s + padding == s;
    } else {
      TrimmedOff(s, padding[..|padding| - 1]);
      assert (s + padding)[..|s + padding| - 1] == s + padding[..|padding| - 1];
    }
  }

  lemma {:induction false} NothingDropped(s: string)
    requires Clean(s)
    ensures DropNewlines(s) == s
  {
    if s != "" {
      NothingDropped(s[1..]);
    }
  }

  /** `Base64Decode` inverts all four encodings of every byte string. */
  lemma DecodeInvertsEncodings(b: bytes, url: bool, padded: bool)
    ensures Decode(Encode(b, url, padded)) == Some(b)
  {
    var padding := Translated(b, url, padded);
    ReplacedOneByOne(Encode(b, url, padded), '+', '-');
    ReplacedOneByOne(Replace(Encode(b, url, padded), '+', '-'), '/', '_');
    TrimmedOff(Encode(b, true, false), padding);
    NothingDropped(Encode(b, true, false));
    RawRoundTrip(b);
  }

  /** So does the raw URL decoder on its own encoding. */
  lemma RawDecodeInvertsEncode(b: bytes)
    ensures RawURLDecode(Encode(b, true, false)) == Some(b)
  {
    var _ := Translated(b, true, false);
    NothingDropped(Encode(b, true, false));
    RawRoundTrip(b);
  }

  /** An encoding is empty only for the empty byte string. */
  lemma EncodeNotEmpty(b: bytes, url: bool, padded: bool)
    ensures Encode(b, url, padded) == "" <==> b == []
  {
  }

  // ---- Which strings decode ------------------------------------------------------------

  predicate Newline(c: char) {
    c == '\r' || c == '\n'
  }

  /** A character of the URL alphabet (table 2 of RFC 4648). */
  predicate UrlSafe(c: char) {
    'A' <= c <= 'Z' || 'a' <= c <= 'z' || '0' <= c <= '9' || c == '-' || c == '_'
  }

  /** How many characters of a string are no line breaks. */
  function Count(s: string): nat {
    if s == "" then 0 else Count(s[1..]) + if Newline(s[0]) then 0 else 1
  }

  lemma {:induction false} DropNewlinesExactly(s: string)
    ensures |DropNewlines(s)| == Count(s)
    ensures (forall c <- DropNewlines(s) :: UrlSafe(c)) <==> forall c <- s :: Newline(c) || UrlSafe(c)
  {
    if s != "" {
      DropNewlinesExactly(s[1..]);
      var rest := DropNewlines(s[1..]);
      assert forall c :: c in s <==> c == s[0] || c in s[1..];
      assert forall c :: c in [s[0]] + rest <==> c == s[0] || c in rest;
    }
  }

  lemma {:induction false} DigitsExactly(s: string)
    ensures Digits(s).Some? <==> forall c <- s :: UrlSafe(c)
    ensures Digits(s).Some? ==> |Digits(s).value| == |s|
  {
    if s != "" {
      DigitsExactly(s[1..]);
      assert (forall c <- s :: UrlSafe(c)) <==> UrlSafe(s[0]) && forall c <- s[1..] :: UrlSafe(c) by {
        assert forall c :: c in s <==> c == s[0] || c in s[1..];
      }
      assert Digit(s[0]).Some? <==> UrlSafe(s[0]);
    }
  }

  lemma {:induction false} FromDigitsExactly(d: seq<sextet>)
    ensures FromDigits(d).Some? <==> |d| % 4 != 1
    ensures FromDigits(d).Some? ==> |FromDigits(d).value| == |d| * 3 / 4
  {
    if |d| >= 4 {
      FromDigitsExactly(d[4..]);
      FourMore(|d[4..]|);
      assert |d| == |d[4..]| + 4;
    }
  }

  lemma FourMore(n: nat)
    ensures (n + 4) % 4 == n % 4 && (n + 4) * 3 / 4 == 3 + n * 3 / 4
  {
  }

  /**
   The raw URL decoder takes exactly the strings over its alphabet and line breaks in which the
   characters that count are not one more than a multiple of four; four of them make three bytes.
   */
  lemma RawDecodesExactly(s: string)
    ensures RawURLDecode(s).Some? <==> (forall c <- s :: Newline(c) || UrlSafe(c)) && Count(s) % 4 != 1
    ensures RawURLDecode(s).Some? ==> |RawURLDecode(s).value| == Count(s) * 3 / 4
  {
    DropNewlinesExactly(s);
    DigitsExactly(DropNewlines(s));
    if Digits(DropNewlines(s)).Some? {
      FromDigitsExactly(Digits(DropNewlines(s)).value);
    }
  }

  lemma {:induction false} ReplaceCounts(s: string, from: char, to: char)
    requires !Newline(from) && !Newline(to)
    ensures Count(Replace(s, from, to)) == Count(s)
  {
    if s != "" {
      ReplaceCounts(s[1..], from, to);
      assert Replace(s, from, to)[1..] == Replace(s[1..], from, to);
    }
  }

  /** What is left once both alphabets are one. */
  function OneAlphabet(s: string): string {
    Replace(Replace(s, '+', '-'), '/', '_')
  }

  lemma OneAlphabetExactly(s: string)
    ensures |OneAlphabet(s)| == |s| && Count(OneAlphabet(s)) == Count(s)
    ensures (forall c <- OneAlphabet(s) :: Newline(c) || UrlSafe(c))
            <==> forall c <- s :: Newline(c) || UrlSafe(c) || c == '+' || c == '/'
    ensures s != "" ==> (OneAlphabet(s)[|s| - 1] == '=' <==> s[|s| - 1] == '=')
  {
    ReplaceCounts(s, '+', '-');
    ReplaceCounts(Replace(s, '+', '-'), '/', '_');
    var t := OneAlphabet(s);
    if forall c <- t :: Newline(c) || UrlSafe(c) {
      forall c | c in s
        ensures Newline(c) || UrlSafe(c) || c == '+' || c == '/'
      {
        var i :| 0 <= i < |s| && s[i] == c;
        assert t[i] in t;
      }
    }
    assert (forall c <- s :: Newline(c) || UrlSafe(c) || c == '+' || c == '/') ==>
        forall i :: 0 <= i < |t| ==> s[i] in s && (Newline(t[i]) || UrlSafe(t[i]));
  }

  /**
   `Base64Decode` takes both alphabets, even mixed, line breaks anywhere, and any number of '='
   at the end: the text before them decodes exactly when it holds nothing else and its length is
   not one more than a multiple of four.
   */
  lemma DecodesExactly(text: string, padding: string)
    requires text != "" ==> text[|text| - 1] != '='
    requires forall i :: 0 <= i < |padding| ==> padding[i] == '='
    ensures Decode(text + padding).Some?
            <==> (forall c <- text :: Newline(c) || UrlSafe(c) || c == '+' || c == '/') && Count(text) % 4 != 1
    ensures Decode(text + padding).Some? ==> |Decode(text + padding).value| == Count(text) * 3 / 4
  {
    var s := text + padding;
    ReplacedOneByOne(s, '+', '-');
    ReplacedOneByOne(Replace(s, '+', '-'), '/', '_');
    assert OneAlphabet(s) == OneAlphabet(text) + padding;
    OneAlphabetExactly(text);
    TrimmedOff(OneAlphabet(text), padding);
    RawDecodesExactly(OneAlphabet(text));
  }

  /** Test vectors of section 10 of RFC 4648, and the two characters in which the alphabets differ. */
  lemma Vectors(foo: bytes, high: bytes)
    requires |foo| == 3 && foo[0] == 0x66 && foo[1] == foo[2] == 0x6f
    requires |high| == 2 && high[0] == 0xfb && high[1] == 0xf0
    ensures Encode(foo, false, true) == "Zm9v"
    ensures Encode(high, false, true) == "+/A=" && Encode(high, true, false) == "-_A"
  {
    Vector(foo);
    assert Group(0xfb, 0xf0, 0) == [62, 63, 0, 0];
    assert Symbols([62, 63, 0], false) == "+/A" && Symbols([62, 63, 0], true) == "-_A";
  }

  lemma Vector(foo: bytes)
    requires |foo| == 3 && foo[0] == 0x66 && foo[1] == foo[2] == 0x6f
    ensures Encode(foo, false, true) == "Zm9v"
  {
    assert foo[3..] == [];
    assert Group(0x66, 0x6f, 0x6f) == [25, 38, 61, 47];
    assert Symbols([25, 38, 61, 47], false) == "Zm9v";
  }
}
