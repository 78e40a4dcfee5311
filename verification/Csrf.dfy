/**
 The CSRF token life cycle of middleware/csrf.go: one 64-byte token per session, a fresh
 mask of it on every page, and the check of mutating requests.
 */
module Csrf {
  import opened Wrappers
  import opened Bytes
  import opened SessionValues
  import Base64

  const TOKEN_LENGTH: nat := 64
  const HEADER_FIELD := "X-CSRF-Token"
  const FORM_FIELD := "csrf_token"
  const META_TAG_NAME := "csrf-token"

  // ---- Masks ---------------------------------------------------------------------------

  /** The exclusive or of the lowest bits. */
  function XorBit(a: nat, b: nat): nat {
    if a % 2 == b % 2 then 0 else 1
  }

  /** Bitwise exclusive or of the lowest `bits` bits. */
  function XorBits(a: nat, b: nat, bits: nat): nat {
    if bits == 0 then 0 else 2 * XorBits(a / 2, b / 2, bits - 1) + XorBit(a, b)
  }

  function Pow2(n: nat): nat {
    if n == 0 then 1 else 2 * Pow2(n - 1)
  }

  lemma {:induction false} XorBitsFits(a: nat, b: nat, bits: nat)
    ensures XorBits(a, b, bits) < Pow2(bits)
  {
    if bits > 0 {
      XorBitsFits(a / 2, b / 2, bits - 1);
    }
  }

  lemma Halves(high: nat, bit: nat)
    requires bit <= 1
    ensures (2 * high + bit) / 2 == high && (2 * high + bit) % 2 == bit
  {
  }

  lemma {:induction false} XorBitsUndoes(a: nat, b: nat, bits: nat)
    requires a < Pow2(bits)
    ensures XorBits(XorBits(b, a, bits), b, bits) == a
  {
    if bits > 0 {
      Halves(XorBits(b / 2, a / 2, bits - 1), XorBit(b, a));
      XorBitsUndoes(a / 2, b / 2, bits - 1);
    }
  }

  /** Bit `i`, counted from the lowest. */
  function Bit(a: nat, i: nat): nat {
    if i == 0 then a % 2 else Bit(a / 2, i - 1)
  }

  lemma {:induction false} XorBitAt(a: nat, b: nat, bits: nat, i: nat)
    requires i < bits
    ensures Bit(XorBits(a, b, bits), i) == 1 <==> Bit(a, i) != Bit(b, i)
    decreases i
  {
    Halves(XorBits(a / 2, b / 2, bits - 1), XorBit(a, b));
    if i > 0 {
      XorBitAt(a / 2, b / 2, bits - 1, i - 1);
    }
  }

  /** A bit is set exactly where the two differ. */
  lemma XorByteBits(a: byte, b: byte, i: nat)
    requires i < 8
    ensures Bit(XorByte(a, b) as nat, i) == 1 <==> Bit(a as nat, i) != Bit(b as nat, i)
  {
    XorBitAt(a as nat, b as nat, 8, i);
  }

  function XorByte(a: byte, b: byte): byte {
    XorBitsFits(a as nat, b as nat, 8);
    XorBits(a as nat, b as nat, 8) as byte
  }

  function Xor(x: bytes, y: bytes): bytes
    requires |x| <= |y|
  {
    seq(|x|, i requires 0 <= i < |x| => XorByte(x[i], y[i]))
  }

  method XorInto(x: bytes, y: bytes) returns (result: array<byte>)
    requires |x| <= |y|
    ensures fresh(result) && result[..] == Xor(x, y)
  {
    result := new byte[|x|];
    var i := 0;
    while i < |x|
      invariant 0 <= i <= |x|
      invariant result[..i] == Xor(x, y)[..i]
    {
      result[i] := XorByte(x[i], y[i]);
      i := i + 1;
    }
  }

  /** `mask`, for the pad that RandomBytes gave. */
  function Mask(raw: bytes, pad: bytes): string
    requires |pad| == |raw|
  {
    Base64.Encode(pad + Xor(pad, raw), true, false)
  }

  /** `unmask`; None is its error. */
  function Unmask(masked: bytes): Option<bytes> {
    if |masked| < 2 || |masked| % 2 != 0 then None
    else Some(Xor(masked[|masked| / 2..], masked[..|masked| / 2]))
  }

  /** Whatever the pad, a mask is undone. */
  lemma UnmaskUndoesMask(raw: bytes, pad: bytes)
    requires |pad| == |raw| > 0
    ensures Mask(raw, pad) != ""
    ensures Base64.RawURLDecode(Mask(raw, pad)).Some?
    ensures Unmask(Base64.RawURLDecode(Mask(raw, pad)).value) == Some(raw)
    ensures |Base64.RawURLDecode(Mask(raw, pad)).value| == 2 * |raw| && pad <= Base64.RawURLDecode(Mask(raw, pad)).value
  {
    var both := pad + Xor(pad, raw);
    Base64.RawDecodeInvertsEncode(both);
    Base64.EncodeNotEmpty(both, true, false);
    XorUndoes(raw, pad);
    UnmaskHalves(pad, Xor(pad, raw));
  }

  lemma UnmaskHalves(pad: bytes, masked: bytes)
    requires |pad| == |masked| > 0
    ensures Unmask(pad + masked) == Some(Xor(masked, pad))
  {
    var both := pad + masked;
    assert |both| / 2 == |pad|;
    assert both[..|pad|] == pad && both[|pad|..] == masked;
  }

  lemma XorUndoes(raw: bytes, pad: bytes)
    requires |pad| == |raw|
    ensures Xor(Xor(pad, raw), pad) == raw
  {
    forall i | 0 <= i < |raw|
      ensures XorByte(XorByte(pad[i], raw[i]), pad[i]) == raw[i]
    {
      assert Pow2(8) == 256;
      XorBitsUndoes(raw[i] as nat, pad[i] as nat, 8);
    }
  }

  // ---- Requests ------------------------------------------------------------------------

  /** What HandleCSRF reads of a request; an absent header or form value is "". */
  datatype Request = Request(verb: string, header: string, form: string, multipart: Option<seq<string>>)

  /** The token string of a request: the header's; without one the form's; without either the multipart form's first. */
  predicate Carries(r: Request, sent: string) {
    || (r.header != "" && sent == r.header)
    || (r.header == "" && r.form != "" && sent == r.form)
    || (r.header == "" && r.form == "" && r.multipart.Some? && r.multipart.value != [] && sent == r.multipart.value[0])
    || (r.header == "" && r.form == "" && (r.multipart.None? || r.multipart.value == []) && sent == "")
  }

  /** The string decodes to two halves whose exclusive or is the stored token. */
  predicate Proves(sent: string, stored: bytes) {
    var both := Base64.RawURLDecode(sent);
    && both.Some? && |stored| == 64 && |both.value| == 128
    && forall i :: 0 <= i < 64 ==> XorByte(both.value[64 + i], both.value[i]) == stored[i]
  }

  datatype TokenError = MissingIncomingToken | InvalidToken

  /** The header is asked first, then the form, then the multipart form. */
  function TokenString(r: Request): string {
    if r.header != "" then r.header
    else if r.form != "" then r.form
    else if r.multipart.Some? && r.multipart.value != [] then r.multipart.value[0]
    else ""
  }

  function TokenFromRequest(r: Request): Result<bytes, TokenError> {
    var str := TokenString(r);
    if str == "" then Err(MissingIncomingToken)
    else
      match Base64.RawURLDecode(str)
      case None => Err(InvalidToken)
      case Some(b) =>
        match Unmask(b)
        case None => Err(InvalidToken)
        case Some(raw) => Ok(raw)
  }

  predicate CanSkip(r: Request) {
    r.verb == "GET" || r.verb == "HEAD" || r.verb == "OPTIONS" || r.verb == "TRACE"
  }

  // ---- One passage ---------------------------------------------------------------------

  datatype Outcome = MissingSession | InternalError | Unauthorized | Next

  /** What the templates see: the helpers under their names. */
  type Page = map<string, string>

  function Helpers(masked: string): Page {
    map[
      "csrfHeaderField" := HEADER_FIELD,
      "csrfMetaTagName" := META_TAG_NAME,
      "csrfToken" := masked,
      "csrfField" := "<input type=\"hidden\" name=\"" + FORM_FIELD + "\" value=\"" + masked + "\" />",
      "csrfMeta" := "<meta name=\"" + META_TAG_NAME + "\" content=\"" + masked + "\">"
    ]
  }

  /** The token a passage works with: the stored one if it has the right length, else the fresh one. */
  function Current(values: Values, fresh_: Option<bytes>): Option<bytes> {
    if |Token(values)| == TOKEN_LENGTH then Some(Token(values)) else fresh_
  }

  /**
   A passage of a request through `HandleCSRF`.  `random` and `pad` are what the two calls
   of RandomBytes give, should they be made; None is an error.  The outcome says which
   response was written, or that the next handler ran.
   */
  method HandleCSRF(session: Session?, r: Request, random: Option<bytes>, pad: Option<bytes>)
      returns (outcome: Outcome, page: Page)
    requires random.Some? ==> |random.value| == TOKEN_LENGTH
    requires pad.Some? ==> |pad.value| == TOKEN_LENGTH
    modifies session
    ensures session == null <==> outcome == MissingSession
    ensures outcome == InternalError
            <==> session != null && (pad.None? || (random.None? && |Token(old(session.values))| != TOKEN_LENGTH))
    ensures session != null && outcome != InternalError ==>
              && |Token(session.values)| == TOKEN_LENGTH
              && (r.verb in {"GET", "HEAD", "OPTIONS", "TRACE"} ==> outcome == Next)
              && (r.verb !in {"GET", "HEAD", "OPTIONS", "TRACE"} ==>
                    forall sent | Carries(r, sent) :: outcome == Next <==> Proves(sent, Token(session.values)))
    ensures session != null ==>
              && session.values == Visited(old(session.values), random)
              && outcome == Answered(old(session.values), r, random, pad)
              && page == Shown(old(session.values), random, pad)
  {
    page := map[];
    if session == null {
      return MissingSession, page;
    }
    var existing := ReadToken(session);
    if |existing| != TOKEN_LENGTH {
      if random.None? {
        return InternalError, page;
      }
      StoreToken(session, random.value);
      existing := random.value;
    }
    if pad.None? {
      return InternalError, page;
    }
    var xored := XorInto(pad.value, existing);
    var masked := Base64.Encode(pad.value + xored[..], true, false);
    page := Helpers(masked);
    AnsweredExactly(session.values, r, pad.value, existing);
    if CanSkip(r) {
      return Next, page;
    }
    var incoming := TokenFromRequest(r);
    if existing != (if incoming.Ok? then incoming.value else []) {
      return Unauthorized, page;
    }
    return Next, page;
  }

  function Visited(values: Values, random: Option<bytes>): Values {
    if |Token(values)| == TOKEN_LENGTH then values
    else if random.Some? then TokenRead(values)[CsrfTokenKey := Bytes(random.value)]
    else TokenRead(values)
  }

  function Shown(values: Values, random: Option<bytes>, pad: Option<bytes>): Page
    requires random.Some? ==> |random.value| == TOKEN_LENGTH
    requires pad.Some? ==> |pad.value| == TOKEN_LENGTH
  {
    match (Current(values, random), pad)
    case (Some(token), Some(p)) => Helpers(Mask(token, p))
    case _ => map[]
  }

  function Answered(values: Values, r: Request, random: Option<bytes>, pad: Option<bytes>): Outcome {
    if Current(values, random).None? || pad.None? then InternalError
    else if CanSkip(r) || TokenFromRequest(r) == Ok(Current(values, random).value) then Next
    else Unauthorized
  }

  // ---- A whole session -----------------------------------------------------------------

  datatype Step =
    | Visit(request: Request, random: Option<bytes>, pad: Option<bytes>)  // a request passes HandleCSRF
    | Touch(stored: Values, deleted: set<Key>)                            // handlers change the session elsewhere

  predicate Possible(step: Step) {
    match step
    case Visit(_, random, pad) =>
      (random.Some? ==> |random.value| == TOKEN_LENGTH) && (pad.Some? ==> |pad.value| == TOKEN_LENGTH)
    case Touch(stored, deleted) => CsrfTokenKey !in stored && CsrfTokenKey !in deleted
  }

  function After(values: Values, step: Step): Values {
    match step
    case Visit(_, random, _) => Visited(values, random)
    case Touch(stored, deleted) => (values + stored) - deleted
  }

  /** The session before step `n` of a history. */
  function At(values: Values, steps: seq<Step>, n: nat): Values
    requires n <= |steps|
  {
    if n == 0 then values else After(At(values, steps, n - 1), steps[n - 1])
  }

  predicate History(steps: seq<Step>) {
    forall i :: 0 <= i < |steps| ==> Possible(steps[i])
  }

  /** A passage leaves a 64-byte token behind unless no random bytes were to be had for a missing one. */
  lemma PassageLeavesToken(values: Values, random: Option<bytes>)
    requires random.Some? ==> |random.value| == TOKEN_LENGTH
    ensures |Token(Visited(values, random))| == TOKEN_LENGTH <==> Current(values, random).Some?
    ensures Current(values, random).Some? ==> Token(Visited(values, random)) == Current(values, random).value
    ensures forall k :: k != CsrfTokenKey ==> (k in Visited(values, random) <==> k in values)
    ensures forall k :: k != CsrfTokenKey && k in values ==> Visited(values, random)[k] == values[k]
  {
  }

  /** Once the token has 64 bytes it stays what it is. */
  lemma {:induction false} TokenNeverChanges(values: Values, steps: seq<Step>, i: nat, j: nat)
    requires History(steps) && i <= j <= |steps|
    requires |Token(At(values, steps, i))| == TOKEN_LENGTH
    ensures Token(At(values, steps, j)) == Token(At(values, steps, i))
  {
    if i < j {
      TokenNeverChanges(values, steps, i, j - 1);
    }
  }

  /** What a page shows: the mask of the token, as it is and in two tags, and the names it travels under. */
  lemma PageShows(values: Values, random: Option<bytes>, pad: Option<bytes>, token: bytes)
    requires random.Some? ==> |random.value| == TOKEN_LENGTH
    requires pad.Some? ==> |pad.value| == TOKEN_LENGTH
    requires |token| == TOKEN_LENGTH && Token(Visited(values, random)) == token
    ensures pad.None? ==> Shown(values, random, pad) == map[]
    ensures pad.Some? ==>
              var page, mask := Shown(values, random, pad), Mask(token, pad.value);
              && page.Keys == {"csrfToken", "csrfHeaderField", "csrfMetaTagName", "csrfField", "csrfMeta"}
              && page["csrfToken"] == mask
              && page["csrfHeaderField"] == "X-CSRF-Token" && page["csrfMetaTagName"] == "csrf-token"
              && page["csrfField"] == "<input type=\"hidden\" name=\"" + "csrf_token" + "\" value=\"" + mask + "\" />"
              && page["csrfMeta"] == "<meta name=\"" + "csrf-token" + "\" content=\"" + mask + "\">"
  {
    PassageLeavesToken(values, random);
  }

  lemma MaskAccepted(values: Values, r: Request, random: Option<bytes>, pad: Option<bytes>, token: bytes, mask: bytes)
    requires |token| == |mask| == TOKEN_LENGTH && Token(values) == token && pad.Some?
    requires TokenString(r) == Mask(token, mask)
    ensures Answered(values, r, random, pad) == Next
  {
    UnmaskUndoesMask(token, mask);
  }

  /** Every mask shown on a page is accepted with any later mutating request, however it travels. */
  lemma ShownMaskAccepted(values: Values, steps: seq<Step>, i: nat, j: nat)
    requires History(steps) && i < j < |steps| && steps[i].Visit? && steps[j].Visit?
    requires "csrfToken" in Shown(At(values, steps, i), steps[i].random, steps[i].pad)
    requires TokenString(steps[j].request) == Shown(At(values, steps, i), steps[i].random, steps[i].pad)["csrfToken"]
    requires steps[j].pad.Some?
    ensures Answered(At(values, steps, j), steps[j].request, steps[j].random, steps[j].pad) == Next
  {
    var before := At(values, steps, i);
    var token := Current(before, steps[i].random).value;
    PassageLeavesToken(before, steps[i].random);
    TokenNeverChanges(values, steps, i + 1, j);
    assert Token(At(values, steps, j)) == token;
    assert Shown(before, steps[i].random, steps[i].pad) == Helpers(Mask(token, steps[i].pad.value));
    MaskAccepted(At(values, steps, j), steps[j].request, steps[j].random, steps[j].pad, token, steps[i].pad.value);
  }

  /**
   A request whose verb is none of the four safe ones goes through exactly when it carries a token
   that decodes to two halves whose exclusive or is the 64-byte token stored after the passage.
   A request with a safe verb goes through whatever it carries.
   */
  lemma AcceptedExactly(values: Values, r: Request, sent: string, random: Option<bytes>, pad: Option<bytes>)
    requires random.Some? ==> |random.value| == TOKEN_LENGTH
    requires pad.Some? && Carries(r, sent)
    ensures r.verb !in {"GET", "HEAD", "OPTIONS", "TRACE"} ==>
              (Answered(values, r, random, pad) == Next <==> Proves(sent, Token(Visited(values, random))))
    ensures r.verb in {"GET", "HEAD", "OPTIONS", "TRACE"} && |Token(Visited(values, random))| == TOKEN_LENGTH ==>
              Answered(values, r, random, pad) == Next
  {
    PassageLeavesToken(values, random);
    if Current(values, random).Some? {
      SentIs(r, sent, Current(values, random).value);
    }
  }

  /** The answer to a request, given the token. */
  lemma AnsweredExactly(values: Values, r: Request, pad: bytes, token: bytes)
    requires |token| == TOKEN_LENGTH && Token(values) == token
    ensures CanSkip(r) <==> r.verb in {"GET", "HEAD", "OPTIONS", "TRACE"}
    ensures forall sent | Carries(r, sent) :: TokenFromRequest(r) == Ok(token) <==> Proves(sent, token)
  {
    forall sent | Carries(r, sent)
      ensures TokenFromRequest(r) == Ok(token) <==> Proves(sent, token)
    {
      SentIs(r, sent, token);
    }
  }

  lemma SentIs(r: Request, sent: string, token: bytes)
    requires |token| == TOKEN_LENGTH && Carries(r, sent)
    ensures TokenString(r) == sent
    ensures TokenFromRequest(r) == Ok(token) <==> Proves(sent, token)
  {
    if sent == "" {
      NothingSent();
    } else if Base64.RawURLDecode(sent).Some? {
      UnmaskIs(Base64.RawURLDecode(sent).value, token);
    }
  }

  /** Which error it is when no token comes with a request. */
  lemma TokenErrors(r: Request, sent: string)
    requires Carries(r, sent)
    ensures TokenFromRequest(r) == Err(MissingIncomingToken) <==> sent == ""
    ensures TokenFromRequest(r) == Err(InvalidToken) <==>
            var b := Base64.RawURLDecode(sent); sent != "" && (b.None? || |b.value| < 2 || |b.value| % 2 != 0)
  {
  }

  lemma NothingSent()
    ensures Base64.RawURLDecode("") == Some([])
  {
  }

  lemma UnmaskIs(b: bytes, stored: bytes)
    ensures Unmask(b) == Some(stored) && |stored| == TOKEN_LENGTH
            <==> |stored| == TOKEN_LENGTH && |b| == 2 * TOKEN_LENGTH
                 && (forall i :: 0 <= i < TOKEN_LENGTH ==> XorByte(b[TOKEN_LENGTH + i], b[i]) == stored[i])
  {
    if Unmask(b).Some? {
      var x := Unmask(b).value;
      assert |x| == |b| / 2;
      if |b| == 2 * TOKEN_LENGTH {
        assert forall i :: 0 <= i < TOKEN_LENGTH ==> x[i] == XorByte(b[TOKEN_LENGTH + i], b[i]);
        if |stored| == TOKEN_LENGTH && forall i :: 0 <= i < TOKEN_LENGTH ==>
            XorByte(b[TOKEN_LENGTH + i], b[i]) == stored[i] {
          assert x == stored;
        }
      }
    }
  }
}
