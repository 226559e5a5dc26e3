/**
 * The bearer-token check of the HTTP API (`authMiddleware`): which of the
 * rejections applies to an Authorization header, which token goes to the
 * token verifier, and what the request context holds afterwards.
 */
module Middleware {
  import opened Wrappers

  const AuthorizationTypeBearer: string := "Bearer"
  const AuthorizationPayloadKey: string := "authorization_payload"
  const StatusUnauthorized: int := 401

  // ---------------------------------------------------------------------
  // strings.Fields

  /**
   * Go's `unicode.IsSpace`: in Latin-1, tab through carriage return, space,
   * NEL and no-break space; above it, the other Unicode White_Space characters.
   */
  predicate IsSpace(c: char) {
    if c <= '\U{00FF}' then
      ('\t' <= c <= '\r') || c == ' ' || c == '\U{0085}' || c == '\U{00A0}'
    else
      c == '\U{1680}' || ('\U{2000}' <= c <= '\U{200A}') || c == '\U{2028}' || c == '\U{2029}'
      || c == '\U{202F}' || c == '\U{205F}' || c == '\U{3000}'
  }

  predicate AllSpace(s: string) {
    forall i :: 0 <= i < |s| ==> IsSpace(s[i])
  }

  /** A field: a non-empty run of non-space characters. */
  predicate IsWord(w: string) {
    w != [] && forall i :: 0 <= i < |w| ==> !IsSpace(w[i])
  }

  /** `s` without its leading white space. */
  function SkipSpace(s: string): (r: string)
    ensures |r| <= |s| && r == s[|s| - |r|..]
    ensures forall i :: 0 <= i < |s| - |r| ==> IsSpace(s[i])
    ensures r == [] || !IsSpace(r[0])
  {
    if s == [] || !IsSpace(s[0]) then s
    else
      var r := SkipSpace(s[1..]);
      assert forall i :: 1 <= i < |s| - |r| ==> s[i] == s[1..][i - 1];
      r
  }

  /** The longest prefix of `s` that holds no white space. */
  function TakeWord(s: string): (w: string)
    ensures w <= s
    ensures forall i :: 0 <= i < |w| ==> !IsSpace(w[i])
    ensures |w| == |s| || IsSpace(s[|w|])
  {
    if s == [] || IsSpace(s[0]) then [] else [s[0]] + TakeWord(s[1..])
  }

  /** Go's `strings.Fields`: the maximal runs of non-space characters, in order. */
  function Fields(s: string): seq<string>
    decreases |s|
  {
    var t := SkipSpace(s);
    if t == [] then []
    else
      var w := TakeWord(t);
      assert w != [];
      [w] + Fields(t[|w|..])
  }

  /** The characters of `s` that are not white space, in order. */
  function NonSpace(s: string): string {
    if s == [] then [] else (if IsSpace(s[0]) then [] else [s[0]]) + NonSpace(s[1..])
  }

  function Concat(fs: seq<string>): string {
    if fs == [] then [] else fs[0] + Concat(fs[1..])
  }

  // ---------------------------------------------------------------------
  // strings.EqualFold

  /** ASCII simple case folding. */
  function FoldAscii(c: char): char {
    if 'A' <= c <= 'Z' then (c as int + 32) as char else c
  }

  /**
   * Case-insensitive equality. Go's `strings.EqualFold` folds all of Unicode;
   * against "Bearer" the two agree, since no non-ASCII character folds to any
   * of its letters.
   */
  predicate EqualFold(a: string, b: string) {
    if a == [] || b == [] then a == b
    else FoldAscii(a[0]) == FoldAscii(b[0]) && EqualFold(a[1..], b[1..])
  }

  lemma {:induction false} PointwiseEqualFold(a: string, b: string)
    requires |a| == |b|
    requires forall i :: 0 <= i < |a| ==> FoldAscii(a[i]) == FoldAscii(b[i])
    ensures EqualFold(a, b)
  {
    if a != [] {
      assert forall i :: 0 <= i < |a| - 1 ==> a[1..][i] == a[i + 1] && b[1..][i] == b[i + 1];
      PointwiseEqualFold(a[1..], b[1..]);
    }
  }

  /** Strings equal up to case have equal lengths and fold to the same characters position by position. */
  lemma {:induction false} EqualFoldPointwise(a: string, b: string)
    requires EqualFold(a, b)
    ensures |a| == |b|
    ensures forall i :: 0 <= i < |a| ==> FoldAscii(a[i]) == FoldAscii(b[i])
  {
    if a != [] && b != [] {
      EqualFoldPointwise(a[1..], b[1..]);
      assert forall i :: 1 <= i < |a| ==> a[i] == a[1..][i - 1] && b[i] == b[1..][i - 1];
    }
  }

  // ---------------------------------------------------------------------
  // The middleware

  datatype AuthError =
    | HeaderNotProvided
    | InvalidHeaderFormat
    | UnsupportedAuthorizationType
    | TokenRejected(message: string)

  /** The message of the JSON error body a rejection is answered with. */
  function ErrorMessage(e: AuthError): string {
    match e
    case HeaderNotProvided => "authorization header is not provided"
    case InvalidHeaderFormat => "invalid authorization header format"
    case UnsupportedAuthorizationType => "unsupported authorization type"
    case TokenRejected(m) => m
  }

  /**
   * The three header rejections have the messages of the code, and no two of
   * them share one; a verifier error is passed on with its own message.
   */
  lemma RejectionMessages()
    ensures ErrorMessage(HeaderNotProvided) == "authorization header is not provided"
    ensures ErrorMessage(InvalidHeaderFormat) == "invalid authorization header format"
    ensures ErrorMessage(UnsupportedAuthorizationType) == "unsupported authorization type"
    ensures forall a: AuthError, b: AuthError ::
              !a.TokenRejected? && !b.TokenRejected? && ErrorMessage(a) == ErrorMessage(b) ==> a == b
    ensures forall m :: ErrorMessage(TokenRejected(m)) == m
  {
  }

  /** What the header alone decides: a rejection, or the token to verify. */
  datatype Decision = Reject(reason: AuthError) | Verify(token: string)

  /** The header checks of `authMiddleware`, in the order it makes them. */
  function ParseAuthorization(header: string): (d: Decision)
    ensures d.Reject? ==> !d.reason.TokenRejected?
  {
    if |header| == 0 then Reject(HeaderNotProvided)
    else
      var fields := Fields(header);
      if |fields| < 2 then Reject(InvalidHeaderFormat)
      else if !EqualFold(fields[0], AuthorizationTypeBearer) then Reject(UnsupportedAuthorizationType)
      else Verify(fields[1])
  }

  /** The verified claims of an access token. */
  datatype Payload = Payload(username: string, expiredAt: int)

  datatype Abort = Abort(status: int, message: string)

  /** The parts of the gin request context the middleware touches. */
  datatype Ctx = Ctx(keys: map<string, Payload>, abort: Option<Abort>, nextCalls: nat)

  /** The context after the middleware, and the tokens it handed to the verifier. */
  datatype Handled = Handled(ctx: Ctx, verified: seq<string>)

  /**
   * `authMiddleware` with `VerifyToken` as the oracle `verify`: a rejection
   * aborts with 401 and the error's message; an accepted token's payload is
   * stored under "authorization_payload" and the next handler runs.
   */
  function AuthMiddleware(verify: string -> Result<Payload, string>, header: string, ctx: Ctx): (h: Handled)
    ensures |h.verified| <= 1
    ensures h.ctx.nextCalls == ctx.nextCalls + 1 || h.ctx.nextCalls == ctx.nextCalls
    ensures h.ctx.nextCalls == ctx.nextCalls ==>
              h.ctx.keys == ctx.keys && h.ctx.abort.Some? && h.ctx.abort.value.status == StatusUnauthorized
    ensures h.ctx.nextCalls == ctx.nextCalls + 1 ==>
              h.ctx.abort == ctx.abort && |h.verified| == 1
              && verify(h.verified[0]).Ok?
              && h.ctx.keys == ctx.keys[AuthorizationPayloadKey := verify(h.verified[0]).value]
  {
    match ParseAuthorization(header)
    case Reject(reason) =>
      Handled(ctx.(abort := Some(Abort(StatusUnauthorized, ErrorMessage(reason)))), [])
    case Verify(token) =>
      match verify(token)
      case Err(message) =>
        Handled(ctx.(abort := Some(Abort(StatusUnauthorized, ErrorMessage(TokenRejected(message))))), [token])
      case Ok(payload) =>
        Handled(ctx.(keys := ctx.keys[AuthorizationPayloadKey := payload], nextCalls := ctx.nextCalls + 1), [token])
  }

  // ---------------------------------------------------------------------
  // Properties of strings.Fields

  // The one-step sequence identities below (`SplitAt`, `ConsWords`,
  // `ConcatCons`, `SpaceFirst`, `ConsTwo`, `Regroup`, `BearerLiterals`,
  // `EmptyEnds`) are proved on their own so that concatenation steps stay out
  // of proof contexts that mention `Fields`, where they make the solver loop.


  /** Every field is a non-empty run of non-space characters. */
  lemma {:induction false} FieldsAreWords(s: string)
    ensures forall i :: 0 <= i < |Fields(s)| ==> IsWord(Fields(s)[i])
    decreases |s|
  {
    var t := SkipSpace(s);
    FieldsStep(s);
    if t != [] {
      var w := TakeWord(t);
      FieldsAreWords(t[|w|..]);
      ConsWords(w, Fields(t[|w|..]));
    }
  }

  /** Prepending a word to a sequence of words gives a sequence of words. */
  lemma ConsWords(w: string, fs: seq<string>)
    requires w != [] && forall i :: 0 <= i < |w| ==> !IsSpace(w[i])
    requires forall i :: 0 <= i < |fs| ==> IsWord(fs[i])
    ensures forall i :: 0 <= i < |[w] + fs| ==> IsWord(([w] + fs)[i])
  {
    forall i | 0 <= i < |[w] + fs|
      ensures IsWord(([w] + fs)[i])
    {
      if i > 0 {
        assert ([w] + fs)[i] == fs[i - 1];
      }
    }
  }

  /** A header has no fields exactly when it is all white space (the empty header included). */
  lemma FieldsEmptyIff(s: string)
    ensures Fields(s) == [] <==> AllSpace(s)
  {
    var t := SkipSpace(s);
    if t != [] {
      assert t[0] == s[|s| - |t|];
    }
  }

  lemma {:induction false} NonSpaceAppend(a: string, b: string)
    ensures NonSpace(a + b) == NonSpace(a) + NonSpace(b)
  {
    if a != [] {
      assert (a + b)[1..] == a[1..] + b;
      NonSpaceAppend(a[1..], b);
    } else {
      assert a + b == b;
    }
  }

  lemma {:induction false} NonSpaceOfSpace(s: string)
    requires AllSpace(s)
    ensures NonSpace(s) == []
  {
    if s != [] {
      NonSpaceOfSpace(s[1..]);
    }
  }

  lemma {:induction false} NonSpaceOfWord(w: string)
    requires forall i :: 0 <= i < |w| ==> !IsSpace(w[i])
    ensures NonSpace(w) == w
  {
    if w != [] {
      NonSpaceOfWord(w[1..]);
      assert w == [w[0]] + w[1..];
    }
  }

  /** Joining the fields back together gives the header's non-space characters, in order. */
  lemma {:induction false} FieldsKeepNonSpace(s: string)
    ensures Concat(Fields(s)) == NonSpace(s)
    decreases |s|
  {
    var t := SkipSpace(s);
    ConcatFieldsStep(s);
    NonSpaceSkip(s);
    if t != [] {
      NonSpaceWordRest(t);
      FieldsKeepNonSpace(t[|TakeWord(t)|..]);
    }
  }

  /** Leading white space contributes nothing to `NonSpace`. */
  lemma NonSpaceSkip(s: string)
    ensures NonSpace(s) == NonSpace(SkipSpace(s))
  {
    var t := SkipSpace(s);
    var lead := s[..|s| - |t|];
    SplitAt(s, |s| - |t|);
    NonSpaceAppend(lead, t);
    NonSpaceOfSpace(lead);
  }

  /** A leading word is kept whole by `NonSpace`. */
  lemma NonSpaceWordRest(t: string)
    ensures NonSpace(t) == TakeWord(t) + NonSpace(t[|TakeWord(t)|..])
  {
    var w := TakeWord(t);
    SplitAt(t, |w|);
    NonSpaceAppend(w, t[|w|..]);
    NonSpaceOfWord(w);
  }

  /** A sequence is its prefix followed by its suffix. */
  lemma SplitAt(s: string, k: nat)
    requires k <= |s|
    ensures s == s[..k] + s[k..]
  {
  }

  /** `Concat` of the fields, one step of `Fields` at a time. */
  lemma ConcatFieldsStep(s: string)
    ensures SkipSpace(s) == [] ==> Concat(Fields(s)) == []
    ensures SkipSpace(s) != [] ==>
              Concat(Fields(s)) == TakeWord(SkipSpace(s)) + Concat(Fields(SkipSpace(s)[|TakeWord(SkipSpace(s))|..]))
  {
    FieldsStep(s);
    var t := SkipSpace(s);
    if t != [] {
      ConcatCons(TakeWord(t), Fields(t[|TakeWord(t)|..]));
    }
  }

  /** One step of `Fields`: skip the leading space, then take one word. */
  lemma FieldsStep(s: string)
    ensures SkipSpace(s) == [] ==> Fields(s) == []
    ensures SkipSpace(s) != [] ==>
              Fields(s) == [TakeWord(SkipSpace(s))] + Fields(SkipSpace(s)[|TakeWord(SkipSpace(s))|..])
  {
  }

  /** `Concat` of a sequence with a first element. */
  lemma ConcatCons(w: string, fs: seq<string>)
    ensures Concat([w] + fs) == w + Concat(fs)
  {
    assert ([w] + fs)[1..] == fs;
  }

  lemma {:induction false} SkipLeadingSpace(lead: string, s: string)
    requires AllSpace(lead)
    requires s == [] || !IsSpace(s[0])
    ensures SkipSpace(lead + s) == s
  {
    if lead != [] {
      assert (lead + s)[1..] == lead[1..] + s;
      SkipLeadingSpace(lead[1..], s);
    } else {
      assert lead + s == s;
    }
  }

  lemma {:induction false} TakeWholeWord(w: string, rest: string)
    requires forall i :: 0 <= i < |w| ==> !IsSpace(w[i])
    requires rest == [] || IsSpace(rest[0])
    ensures TakeWord(w + rest) == w
  {
    if w != [] {
      assert (w + rest)[1..] == w[1..] + rest;
      TakeWholeWord(w[1..], rest);
      assert w == [w[0]] + w[1..];
    } else {
      assert w + rest == rest;
    }
  }

  /** Leading white space, one word, then the rest starting at a space: the word is the first field. */
  lemma FieldsOfWordThenRest(lead: string, w: string, rest: string)
    requires AllSpace(lead)
    requires IsWord(w)
    requires rest == [] || IsSpace(rest[0])
    ensures Fields(lead + w + rest) == [w] + Fields(rest)
  {
    assert lead + w + rest == lead + (w + rest);
    SkipLeadingSpace(lead, w + rest);
    TakeWholeWord(w, rest);
    assert (w + rest)[|w|..] == rest;
  }

  // ---------------------------------------------------------------------
  // Properties of the header checks

  /** Only the empty header is "not provided". */
  lemma NotProvidedIffEmpty(header: string)
    ensures ParseAuthorization(header) == Reject(HeaderNotProvided) <==> header == []
  {
  }

  /** The token handed to the verifier is one whole field: non-empty and free of white space. */
  lemma VerifiedTokenIsWord(header: string)
    requires ParseAuthorization(header).Verify?
    ensures IsWord(ParseAuthorization(header).token)
  {
    FieldsAreWords(header);
  }

  /** A non-empty header of white space only has no fields, so its format is invalid. */
  lemma BlankHeaderInvalid(header: string)
    requires header != []
    requires AllSpace(header)
    ensures ParseAuthorization(header) == Reject(InvalidHeaderFormat)
  {
    FieldsEmptyIff(header);
  }

  /** A header holding one word and white space around it has too few fields. */
  lemma SingleFieldInvalid(lead: string, w: string, trail: string)
    requires AllSpace(lead) && IsWord(w) && AllSpace(trail)
    ensures ParseAuthorization(lead + w + trail) == Reject(InvalidHeaderFormat)
  {
    assert trail == [] || IsSpace(trail[0]);
    FieldsOfWordThenRest(lead, w, trail);
    FieldsEmptyIff(trail);
  }

  lemma FoldedBearerIsWord(scheme: string)
    requires EqualFold(scheme, AuthorizationTypeBearer)
    ensures IsWord(scheme)
  {
    EqualFoldPointwise(scheme, AuthorizationTypeBearer);
  }

  /** The header `lead scheme gap token rest`, split by white space as strings.Fields splits it. */
  lemma FieldsOfSchemeAndToken(lead: string, scheme: string, gap: string, token: string, rest: string)
    requires AllSpace(lead) && IsWord(scheme)
    requires gap != [] && AllSpace(gap)
    requires IsWord(token)
    requires rest == [] || IsSpace(rest[0])
    ensures Fields(lead + scheme + gap + token + rest) == [scheme, token] + Fields(rest)
  {
    var after := gap + token + rest;
    var header := lead + scheme + gap + token + rest;
    Regroup(lead, scheme, gap, token, rest);
    SpaceFirst(gap, token, rest);
    FieldsOfWordThenRest(gap, token, rest);
    FieldsOfWordThenRest(lead, scheme, after);
    ConsTwo(scheme, token, Fields(rest));
  }

  /** A string that starts with non-empty white space starts with a space character. */
  lemma SpaceFirst(gap: string, token: string, rest: string)
    requires gap != [] && AllSpace(gap)
    ensures IsSpace((gap + token + rest)[0])
  {
  }

  /** Two single-element prefixes regroup into one two-element prefix. */
  lemma ConsTwo(a: string, b: string, f: seq<string>)
    ensures [a] + ([b] + f) == [a, b] + f
  {
  }

  /** Regrouping a five-part concatenation. */
  lemma Regroup(a: string, b: string, c: string, d: string, e: string)
    ensures a + b + c + d + e == a + b + (c + d + e)
  {
  }

  /** How the header checks decide once the first two fields are known. */
  lemma DecideOnFields(header: string, scheme: string, token: string, more: seq<string>)
    requires Fields(header) == [scheme, token] + more
    ensures EqualFold(scheme, AuthorizationTypeBearer) ==> ParseAuthorization(header) == Verify(token)
    ensures !EqualFold(scheme, AuthorizationTypeBearer) ==>
              ParseAuthorization(header) == Reject(UnsupportedAuthorizationType)
  {
    assert header != [];
    assert Fields(header)[0] == scheme && Fields(header)[1] == token;
  }

  /**
   * Any scheme equal to "Bearer" up to case, followed by white space and a
   * token, sends exactly that token to the verifier, whatever further fields
   * follow.
   */
  lemma BearerHeaderAccepted(lead: string, scheme: string, gap: string, token: string, rest: string)
    requires AllSpace(lead)
    requires EqualFold(scheme, AuthorizationTypeBearer)
    requires gap != [] && AllSpace(gap)
    requires IsWord(token)
    requires rest == [] || IsSpace(rest[0])
    ensures ParseAuthorization(lead + scheme + gap + token + rest) == Verify(token)
  {
    FoldedBearerIsWord(scheme);
    FieldsOfSchemeAndToken(lead, scheme, gap, token, rest);
    DecideOnFields(lead + scheme + gap + token + rest, scheme, token, Fields(rest));
  }

  /** A first field that is not "Bearer" up to case is an unsupported authorization type. */
  lemma OtherSchemeUnsupported(lead: string, scheme: string, gap: string, token: string, rest: string)
    requires AllSpace(lead)
    requires IsWord(scheme) && !EqualFold(scheme, AuthorizationTypeBearer)
    requires gap != [] && AllSpace(gap)
    requires IsWord(token)
    requires rest == [] || IsSpace(rest[0])
    ensures ParseAuthorization(lead + scheme + gap + token + rest) == Reject(UnsupportedAuthorizationType)
  {
    FieldsOfSchemeAndToken(lead, scheme, gap, token, rest);
    DecideOnFields(lead + scheme + gap + token + rest, scheme, token, Fields(rest));
  }

  /** "" and "   ": not provided, and invalid format. */
  lemma BlankHeaderExamples()
    ensures ParseAuthorization("") == Reject(HeaderNotProvided)
    ensures ParseAuthorization("   ") == Reject(InvalidHeaderFormat)
  {
    BlankHeaderInvalid("   ");
  }

  /** "Bearer" alone: invalid format. */
  lemma SchemeOnlyExample()
    ensures ParseAuthorization("Bearer") == Reject(InvalidHeaderFormat)
  {
    SingleFieldInvalid("", "Bearer", "");
    assert "" + "Bearer" + "" == "Bearer";
  }

  /** "Bearer <token>" and "bearer <token>" both send the token to the verifier. */
  lemma BearerExample(token: string)
    requires IsWord(token)
    ensures ParseAuthorization("Bearer " + token) == Verify(token)
    ensures ParseAuthorization("bearer " + token) == Verify(token)
  {
    BearerFolds();
    SchemeSpaceToken("Bearer", token);
    SchemeSpaceToken("bearer", token);
    BearerLiterals(token);
  }

  /** The example headers as scheme, one space and token. */
  lemma BearerLiterals(token: string)
    ensures "Bearer " + token == "Bearer" + [' '] + token
    ensures "bearer " + token == "bearer" + [' '] + token
  {
  }

  lemma BearerFolds()
    ensures EqualFold("Bearer", AuthorizationTypeBearer)
    ensures EqualFold("bearer", AuthorizationTypeBearer)
  {
    PointwiseEqualFold("Bearer", AuthorizationTypeBearer);
    PointwiseEqualFold("bearer", AuthorizationTypeBearer);
  }

  /** A scheme that folds to "Bearer", one space and a token verify that token. */
  lemma SchemeSpaceToken(scheme: string, token: string)
    requires EqualFold(scheme, AuthorizationTypeBearer) && IsWord(token)
    ensures ParseAuthorization(scheme + [' '] + token) == Verify(token)
  {
    BearerHeaderAccepted([], scheme, [' '], token, []);
    EmptyEnds(scheme, [' '], token);
  }

  /** Empty strings at both ends of a concatenation drop out. */
  lemma EmptyEnds(a: string, b: string, c: string)
    ensures [] + a + b + c + [] == a + b + c
  {
  }

  /** "BEARER <token> extra": upper case is accepted too, and the third field is ignored. */
  lemma UpperCaseBearerExample(token: string)
    requires IsWord(token)
    ensures ParseAuthorization("BEARER " + token + " extra") == Verify(token)
  {
    var header := "BEARER " + token + " extra";
    assert header == "" + "BEARER" + " " + token + " extra";
    assert EqualFold("BEARER", AuthorizationTypeBearer) by {
      PointwiseEqualFold("BEARER", AuthorizationTypeBearer);
    }
    BearerHeaderAccepted("", "BEARER", " ", token, " extra");
  }

  /** "Basic <token>": unsupported authorization type. */
  lemma BasicExample(token: string)
    requires IsWord(token)
    ensures ParseAuthorization("Basic " + token) == Reject(UnsupportedAuthorizationType)
  {
    var header := "Basic " + token;
    assert header == "" + "Basic" + " " + token + "";
    OtherSchemeUnsupported("", "Basic", " ", token, "");
  }

  // ---------------------------------------------------------------------
  // Properties of the middleware

  /**
   * The next handler runs, exactly once, exactly when the header names a
   * bearer token and the verifier accepts it; its payload is then stored
   * under "authorization_payload".
   */
  lemma NextIffVerified(verify: string -> Result<Payload, string>, header: string, ctx: Ctx)
    ensures var h := AuthMiddleware(verify, header, ctx);
            var d := ParseAuthorization(header);
            && (h.ctx.nextCalls == ctx.nextCalls + 1 <==> d.Verify? && verify(d.token).Ok?)
            && (h.ctx.nextCalls == ctx.nextCalls + 1 ==>
                  h.ctx.keys[AuthorizationPayloadKey] == verify(d.token).value && h.verified == [d.token])
  {
  }

  /** A rejected header aborts with 401 and its message, without consulting the verifier. */
  lemma RejectedHeaderSkipsVerifier(verify: string -> Result<Payload, string>, header: string, ctx: Ctx)
    requires ParseAuthorization(header).Reject?
    ensures var h := AuthMiddleware(verify, header, ctx);
            && h.verified == []
            && h.ctx.nextCalls == ctx.nextCalls
            && h.ctx.abort == Some(Abort(StatusUnauthorized, ErrorMessage(ParseAuthorization(header).reason)))
  {
  }

  /** The verifier's error aborts the request with 401 and that error's message. */
  lemma VerifierErrorAborts(verify: string -> Result<Payload, string>, header: string, ctx: Ctx)
    requires ParseAuthorization(header).Verify?
    requires verify(ParseAuthorization(header).token).Err?
    ensures var h := AuthMiddleware(verify, header, ctx);
            && h.verified == [ParseAuthorization(header).token]
            && h.ctx.nextCalls == ctx.nextCalls
            && h.ctx.keys == ctx.keys
            && h.ctx.abort == Some(Abort(StatusUnauthorized, verify(ParseAuthorization(header).token).error))
  {
  }

  /** A missing or empty Authorization header: 401 "authorization header is not provided". */
  lemma EmptyHeaderRejected(verify: string -> Result<Payload, string>, ctx: Ctx)
    ensures var h := AuthMiddleware(verify, "", ctx);
            && h.verified == []
            && h.ctx.nextCalls == ctx.nextCalls
            && h.ctx.abort == Some(Abort(401, "authorization header is not provided"))
  {
  }
}
