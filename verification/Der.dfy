/**
 The two byte converters of keys/azure/azure.go: an IEEE P1363 signature to ASN.1 DER,
 and a pair of curve coordinates to the uncompressed point of section 2.3.3 of SEC 1.
 */
module Der {
  import opened Wrappers
  import opened Bytes

  const SEQUENCE: byte := 0x30
  const INTEGER: byte := 0x02

  /** Content octets of a non-negative INTEGER (section 8.3 of X.690). */
  function IntegerBody(n: nat): bytes {
    var m := Minimal(n);
    if m == [] || m[0] >= 128 then [0] + m else m
  }

  /** Length octets in the shortest form (sections 8.1.3 and 10.1 of X.690). */
  function Length(n: nat): bytes
    requires n < Pow256(126)
  {
    if n < 128 then [n as byte]
    else MinimalLength(n, 126); [(128 + |Minimal(n)|) as byte] + Minimal(n)
  }

  function Element(tag: byte, body: bytes): bytes
    requires |body| < Pow256(126)
  {
    [tag] + Length(|body|) + body
  }

  /** How the two INTEGERs of a signature are marshalled; a body stays far below the longest length octets. */
  function Integers(r: nat, s: nat): bytes
    requires |IntegerBody(r)| < Pow256(126) && |IntegerBody(s)| < Pow256(126)
  {
    Element(INTEGER, IntegerBody(r)) + Element(INTEGER, IntegerBody(s))
  }

  /** `convert1363ToASN1`; None is its error. The length of a Go slice is an int64. */
  function Convert(b: bytes): Option<bytes>
    requires |b| < INT64_LIMIT
  {
    if |b| == 0 || |b| % 2 != 0 then None
    else
      BodiesFit(b);
      Some(Element(SEQUENCE, Integers(Value(b[..|b| / 2]), Value(b[|b| / 2..]))))
  }

  lemma LengthOctets(n: nat)
    requires n < Pow256(126)
    ensures 1 <= |Length(n)| <= 127
    ensures n < 128 ==> |Length(n)| == 1
  {
    MinimalLength(n, 126);
  }

  lemma BodyLength(n: nat, k: nat)
    requires n < Pow256(k)
    ensures 1 <= |IntegerBody(n)| <= k + 1
  {
    MinimalLength(n, k);
  }

  lemma BigLimit()
    ensures 4 * INT64_LIMIT + 1000 < Pow256(126)
  {
    PowMonotone(9, 126);
    assert Pow256(3) == 0x100_0000;
    assert Pow256(6) == 0x100_0000 * 0x100_0000;
    assert Pow256(9) == 0x100_0000 * 0x100_0000 * 0x100_0000;
  }

  lemma IntegersSize(r: nat, s: nat)
    requires |IntegerBody(r)| < Pow256(126) && |IntegerBody(s)| < Pow256(126)
    ensures |Integers(r, s)| == 2 + |Length(|IntegerBody(r)|)| + |IntegerBody(r)|
                                  + |Length(|IntegerBody(s)|)| + |IntegerBody(s)|
    ensures |Integers(r, s)| <= 256 + |IntegerBody(r)| + |IntegerBody(s)|
  {
    LengthOctets(|IntegerBody(r)|);
    LengthOctets(|IntegerBody(s)|);
  }

  lemma BodyFits(half: bytes)
    requires 0 < |half| < INT64_LIMIT
    ensures 1 <= |IntegerBody(Value(half))| <= |half| + 1
    ensures |IntegerBody(Value(half))| < Pow256(126)
  {
    ValueBound(half);
    BodyLength(Value(half), |half|);
    BigLimit();
  }

  lemma BodiesFit(b: bytes)
    requires 0 < |b| < INT64_LIMIT && |b| % 2 == 0
    ensures var r, s := Value(b[..|b| / 2]), Value(b[|b| / 2..]);
            && 1 <= |IntegerBody(r)| <= |b| / 2 + 1 && 1 <= |IntegerBody(s)| <= |b| / 2 + 1
            && |IntegerBody(r)| < Pow256(126) && |IntegerBody(s)| < Pow256(126)
            && |Integers(r, s)| < Pow256(126)
  {
    var r, s := b[..|b| / 2], b[|b| / 2..];
    BodyFits(r);
    BodyFits(s);
    IntegersSize(Value(r), Value(s));
    BigLimit();
  }

  // ---- A strict DER reader, written from X.690 alone -----------------------------------

  /** The length at the head of `b` and what follows; None if malformed or not the shortest form. */
  function ReadLength(b: bytes): Option<(nat, bytes)> {
    if b == [] then None
    else if b[0] < 128 then Some((b[0] as nat, b[1..]))
    else
      var k := b[0] as nat - 128;
      if k == 0 || k == 127 || |b| < 1 + k || b[1] == 0 then None
      else
        var n := Value(b[1..1 + k]);
        if n < 128 then None else Some((n, b[1 + k..]))
  }

  /** The body of the element at the head of `b`, which must have the tag, and what follows it. */
  function ReadElement(tag: byte, b: bytes): Option<(bytes, bytes)> {
    if b == [] || b[0] != tag then None
    else
      match ReadLength(b[1..])
      case None => None
      case Some((n, rest)) => if |rest| < n then None else Some((rest[..n], rest[n..]))
  }

  /** The non-negative value of INTEGER contents; None if empty, negative or not minimal (section 8.3.2). */
  function ReadInteger(body: bytes): Option<nat> {
    if body == [] || body[0] >= 128 then None
    else if |body| > 1 && body[0] == 0 && body[1] < 128 then None
    else Some(Value(body))
  }

  /** A signature as section 2.2.3 of RFC 3279 defines it: a SEQUENCE of exactly two INTEGERs. */
  function ReadSignature(b: bytes): Option<(nat, nat)> {
    match ReadElement(SEQUENCE, b)
    case None => None
    case Some((body, after)) =>
      if after != [] then None
      else
        match ReadElement(INTEGER, body)
        case None => None
        case Some((first, rest)) =>
          match ReadElement(INTEGER, rest)
          case None => None
          case Some((second, end)) =>
            if end != [] then None
            else
              match (ReadInteger(first), ReadInteger(second))
              case (Some(r), Some(s)) => Some((r, s))
              case _ => None
  }

  lemma LengthRoundTrip(n: nat, rest: bytes)
    requires n < Pow256(126)
    ensures ReadLength(Length(n) + rest) == Some((n, rest))
  {
    var b := Length(n) + rest;
    if n < 128 {
      assert b[1..] == rest;
    } else {
      MinimalRoundTrip(n);
      MinimalLength(n, 126);
      var k := |Minimal(n)|;
      assert b[1..1 + k] == Minimal(n) && b[1 + k..] == rest;
      assert b[1] == Minimal(n)[0];
    }
  }

  lemma ElementRoundTrip(tag: byte, body: bytes, rest: bytes)
    requires |body| < Pow256(126)
    ensures ReadElement(tag, Element(tag, body) + rest) == Some((body, rest))
  {
    var n, tail := |body|, body + rest;
    LengthRoundTrip(n, tail);
    HeadRead(tag, Length(n) + tail, n, tail);
    FourParts([tag], Length(n), body, rest);
  }

  lemma FourParts(a: bytes, b: bytes, c: bytes, d: bytes)
    ensures a + b + c + d == a + (b + (c + d))
    ensures (c + d)[..|c|] == c && (c + d)[|c|..] == d
  {
  }

  lemma HeadRead(tag: byte, b: bytes, n: nat, tail: bytes)
    requires ReadLength(b) == Some((n, tail)) && n <= |tail|
    ensures ReadElement(tag, [tag] + b) == Some((tail[..n], tail[n..]))
  {
    assert ([tag] + b)[1..] == b;
  }

  lemma IntegerRoundTrip(n: nat)
    ensures ReadInteger(IntegerBody(n)) == Some(n)
  {
    MinimalRoundTrip(n);
    var m := Minimal(n);
    if m == [] || m[0] >= 128 {
      ValueLeftPad([0], m);
    }
  }

  lemma IntegersRead(r: nat, s: nat)
    requires |IntegerBody(r)| < Pow256(126) && |IntegerBody(s)| < Pow256(126)
    ensures ReadElement(INTEGER, Integers(r, s)) == Some((IntegerBody(r), Element(INTEGER, IntegerBody(s))))
    ensures ReadElement(INTEGER, Element(INTEGER, IntegerBody(s))) == Some((IntegerBody(s), []))
  {
    ElementRoundTrip(INTEGER, IntegerBody(r), Element(INTEGER, IntegerBody(s)));
    LastElement(INTEGER, IntegerBody(s));
  }

  lemma LastElement(tag: byte, body: bytes)
    requires |body| < Pow256(126)
    ensures ReadElement(tag, Element(tag, body)) == Some((body, []))
  {
    ElementRoundTrip(tag, body, []);
    assert Element(tag, body) + [] == Element(tag, body);
  }

  lemma SignatureRead(r: nat, s: nat)
    requires |IntegerBody(r)| < Pow256(126) && |IntegerBody(s)| < Pow256(126) && |Integers(r, s)| < Pow256(126)
    ensures ReadSignature(Element(SEQUENCE, Integers(r, s))) == Some((r, s))
  {
    var whole := Element(SEQUENCE, Integers(r, s));
    ElementRoundTrip(SEQUENCE, Integers(r, s), []);
    assert whole + [] == whole;
    IntegersRead(r, s);
    IntegerRoundTrip(r);
    IntegerRoundTrip(s);
    PartsRead(whole, Integers(r, s), IntegerBody(r), Element(INTEGER, IntegerBody(s)), IntegerBody(s));
  }

  lemma PartsRead(b: bytes, body: bytes, first: bytes, rest: bytes, second: bytes)
    requires ReadElement(SEQUENCE, b) == Some((body, []))
    requires ReadElement(INTEGER, body) == Some((first, rest)) && ReadElement(INTEGER, rest) == Some((second, []))
    requires ReadInteger(first).Some? && ReadInteger(second).Some?
    ensures ReadSignature(b) == Some((ReadInteger(first).value, ReadInteger(second).value))
  {
  }

  /**
   A strict reader gets the values of the two halves back from the converted signature, for
   every input that has halves; every other input is an error.
   */
  lemma ConvertPreservesSignature(b: bytes)
    requires |b| < INT64_LIMIT
    ensures Convert(b).Some? <==> |b| > 0 && |b| % 2 == 0
    ensures Convert(b).Some? ==> ReadSignature(Convert(b).value) == Some((Value(b[..|b| / 2]), Value(b[|b| / 2..])))
  {
    if |b| > 0 && |b| % 2 == 0 {
      BodiesFit(b);
      SignatureRead(Value(b[..|b| / 2]), Value(b[|b| / 2..]));
    }
  }

  /** Octet for octet, for two halves of one byte: a SEQUENCE of six octets, and two INTEGERs of one each. */
  lemma ConvertSmall(r: bytes, s: bytes)
    requires |r| == |s| == 1 && 0 < r[0] < 128 && 0 < s[0] < 128
    ensures Convert(r + s) == Some([0x30, 6, 0x02, 1, r[0], 0x02, 1, s[0]])
  {
    BodiesFit(r + s);
    assert (r + s)[..1] == r && (r + s)[1..] == s;
    SmallInteger(r);
    SmallInteger(s);
    TwoElements(Value(r), Value(s), [0x02, 1, r[0]], [0x02, 1, s[0]]);
    SmallSequence([0x02, 1, r[0]], [0x02, 1, s[0]]);
  }

  lemma SmallSequence(first: bytes, second: bytes)
    requires |first| == |second| == 3
    ensures |first + second| < Pow256(126)
    ensures Element(SEQUENCE, first + second)
            == [0x30, 6, first[0], first[1], first[2], second[0], second[1], second[2]]
  {
    ElementIs(SEQUENCE, first + second);
  }

  lemma TwoElements(r: nat, s: nat, first: bytes, second: bytes)
    requires |IntegerBody(r)| < Pow256(126) && |IntegerBody(s)| < Pow256(126)
    requires Element(INTEGER, IntegerBody(r)) == first && Element(INTEGER, IntegerBody(s)) == second
    ensures Integers(r, s) == first + second
  {
  }

  lemma SmallInteger(n: bytes)
    requires |n| == 1 && 0 < n[0] < 128
    ensures |IntegerBody(Value(n))| < Pow256(126) && Element(INTEGER, IntegerBody(Value(n))) == [0x02, 1, n[0]]
  {
    OneByte(n);
    ElementIs(INTEGER, n);
  }

  lemma ElementIs(tag: byte, body: bytes)
    requires |body| < 128
    ensures |body| < Pow256(126) && Element(tag, body) == [tag, |body| as byte] + body
  {
    BigLimit();
  }

  lemma OneByte(b: bytes)
    requires |b| == 1 && 0 < b[0] < 128
    ensures IntegerBody(Value(b)) == b
  {
    MinimalOfValue(b);
  }

  /** A P-256 signature becomes 8 to 72 bytes. */
  lemma ConvertP256Length(b: bytes)
    requires |b| == 64
    ensures Convert(b).Some? && 8 <= |Convert(b).value| <= 72
  {
    BodiesFit(b);
    var r, s := Value(b[..32]), Value(b[32..]);
    assert |IntegerBody(r)| <= 33 && |IntegerBody(s)| <= 33;
    LengthOctets(|IntegerBody(r)|);
    LengthOctets(|IntegerBody(s)|);
    LengthOctets(|Integers(r, s)|);
  }

  /** Both ends of that range are reached. */
  lemma ConvertP256LengthTight() returns (short: bytes, long: bytes)
    ensures |short| == 64 && Convert(short).Some? && |Convert(short).value| == 8
    ensures |long| == 64 && Convert(long).Some? && |Convert(long).value| == 72
  {
    short := seq(64, i => 0);
    long := seq(64, i => 255);
    ShortestSignature(short);
    LongestSignature(long);
  }

  lemma ShortestSignature(b: bytes)
    requires |b| == 64 && forall i :: 0 <= i < 64 ==> b[i] == 0
    ensures Convert(b).Some? && |Convert(b).value| == 8
  {
    ValueZeros(b[..32]);
    ValueZeros(b[32..]);
    ConvertedSize(b, 1);
  }

  lemma LongestSignature(b: bytes)
    requires |b| == 64 && b[0] == b[32] == 255
    ensures Convert(b).Some? && |Convert(b).value| == 72
  {
    FullLength(b[..32]);
    FullLength(b[32..]);
    ConvertedSize(b, 33);
  }

  lemma ConvertedSize(b: bytes, k: nat)
    requires |b| == 64 && k <= 60
    requires |IntegerBody(Value(b[..32]))| == |IntegerBody(Value(b[32..]))| == k
    ensures Convert(b).Some? && |Convert(b).value| == 6 + 2 * k
  {
    BodiesFit(b);
    IntegersSize(Value(b[..32]), Value(b[32..]));
    LengthOctets(k);
    LengthOctets(4 + 2 * k);
  }

  lemma FullLength(b: bytes)
    requires |b| == 32 && b[0] >= 128
    ensures |IntegerBody(Value(b))| == 33
  {
    MinimalOfValue(b);
  }

  /** A byte string that does not start with zero is the shortest one for its value. */
  lemma {:induction false} MinimalOfValue(b: bytes)
    requires b == [] || b[0] != 0
    ensures Minimal(Value(b)) == b
  {
    if b != [] {
      var init := b[..|b| - 1];
      MinimalOfValue(init);
      assert Value(b) / 256 == Value(init) && Value(b) % 256 == b[|b| - 1] as nat;
      if init == [] {
        assert b == [b[0]];
      } else {
        assert Value(init) > 0;
      }
      assert init + [b[|b| - 1]] == b;
    }
  }

  // ---- parseP256PublicKey ----------------------------------------------------------------

  const COORD_LEN: nat := 32

  /** The byte layout that `parseP256PublicKey` builds in place before the curve check; None is its length error. */
  method UncompressedPoint(x: bytes, y: bytes) returns (r: Option<array<byte>>)
    ensures r.Some? <==> |x| <= 32 && |y| <= 32
    ensures r.Some? ==>
              && fresh(r.value) && r.value.Length == 65 && r.value[0] == 4
              && Value(r.value[1..33]) == Value(x)
              && Value(r.value[33..65]) == Value(y)
  {
    if |x| > COORD_LEN || |y| > COORD_LEN {
      return None;
    }
    var point := new byte[1 + 2 * COORD_LEN](i => 0);
    point[0] := 4;
    ghost var blank := point[..];
    Copy(point, 1 + COORD_LEN - |x|, x);
    ghost var half := point[..];
    Copy(point, 1 + 2 * COORD_LEN - |y|, y);
    assert point[1..33] == half[1..33] == blank[1..33 - |x|] + x;
    PaddedValue(blank, 1, 33 - |x|, x);
    assert point[33..65] == half[33..65 - |y|] + y;
    assert forall i :: 33 <= i < 65 - |y| ==> half[i] == blank[i] == 0;
    PaddedValue(half, 33, 65 - |y|, y);
    return Some(point);
  }

  /** A value behind a stretch of zeros. */
  lemma PaddedValue(s: bytes, i: nat, j: nat, value: bytes)
    requires i <= j <= |s| && forall k :: i <= k < j ==> s[k] == 0
    ensures Value(s[i..j] + value) == Value(value)
  {
    ValueLeftPad(s[i..j], value);
  }

  /** Go's built-in copy into `dst[at:]`, where it fits. */
  method Copy(dst: array<byte>, at: nat, src: bytes)
    requires at + |src| <= dst.Length
    modifies dst
    ensures dst[..] == old(dst[..at]) + src + old(dst[at + |src|..])
  {
    var i := 0;
    while i < |src|
      invariant 0 <= i <= |src|
      invariant forall k :: 0 <= k < dst.Length ==>
                  dst[k] == if at <= k < at + i then src[k - at] else old(dst[k])
    {
      dst[at + i] := src[i];
      i := i + 1;
    }
  }
}
