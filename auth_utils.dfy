/** Token handling shared by the HTTP and socket middleware: pulling a
    bearer token out of a header map, a socket handshake `auth` object or a
    bare string, and validating it. The validator itself (JWT
    verification) is a parameter. */
module AuthTokens {
  import opened Wrappers

  /** The claims a valid token carries. */
  datatype TokenPayload = TokenPayload(id: string, email: string, firstName: string, lastName: string)

  /** `{ valid, data }`, with `data: null` as None. */
  datatype Validation = Validation(valid: bool, data: Option<TokenPayload>)

  /** A `string | undefined | null` token. */
  datatype MaybeToken = NullToken | UndefinedToken | Token(s: string)

  /** A field of a header map or handshake object. */
  datatype FieldValue = StrField(s: string) | ListField(items: seq<string>) | UndefinedField

  /** The argument of `extractToken`: a string, an object or null. */
  datatype TokenSource = StrSource(s: string) | ObjSource(fields: map<string, FieldValue>) | NullSource

  /** JavaScript truthiness of a token: present and not "". */
  predicate Truthy(token: MaybeToken) {
    token.Token? && token.s != ""
  }

  /** `validateAuthToken`: a missing or empty token is invalid without
      consulting the validator; any other token is whatever the validator
      says. */
  function ValidateAuthToken(token: MaybeToken, validate: string -> Validation): (r: Validation)
    ensures !Truthy(token) ==> r == Validation(false, None)
    ensures Truthy(token) ==> r == validate(token.s)
  {
    if !Truthy(token) then Validation(false, None)
    else validate(token.s)
  }

  /** The validator is consulted only for a non-empty token: on any other
      input two validators give the same answer. */
  lemma ValidatorOnlyForTokens(token: MaybeToken, v1: string -> Validation, v2: string -> Validation)
    requires ValidateAuthToken(token, v1) != ValidateAuthToken(token, v2)
    ensures token.Token? && token.s != "" && v1(token.s) != v2(token.s)
  {
  }

  /** `AuthService.validateToken`: valid with the decoded claims when
      verification succeeds, invalid with no data otherwise. */
  function VerifierValidation(verify: string -> Option<TokenPayload>): string -> Validation {
    (token: string) => match verify(token)
                       case Some(payload) => Validation(true, Some(payload))
                       case None => Validation(false, None)
  }

  /** With the service's validator, a result is valid exactly when it
      carries data, and the data is what verification decoded. */
  lemma ValidityCarriesData(token: MaybeToken, verify: string -> Option<TokenPayload>)
    ensures var r := ValidateAuthToken(token, VerifierValidation(verify));
            && (r.valid <==> r.data.Some?)
            && (r.valid <==> Truthy(token) && verify(token.s).Some?)
            && (r.valid ==> r.data == verify(token.s))
  {
  }

  /* ---------- String.prototype.replace with a string pattern ---------- */

  /** `pattern` occurs in `s` starting at position `j`. */
  predicate OccursAt(s: string, pattern: string, j: int) {
    0 <= j && j + |pattern| <= |s| && s[j..j + |pattern|] == pattern
  }

  /** The first position at or after `from` where `pattern` occurs. */
  function IndexOfFrom(s: string, pattern: string, from: nat): (r: Option<nat>)
    ensures r.Some? ==> from <= r.value && OccursAt(s, pattern, r.value)
    ensures r.Some? ==> forall j | from <= j < r.value :: !OccursAt(s, pattern, j)
    ensures r.None? ==> forall j | from <= j :: !OccursAt(s, pattern, j)
    decreases |s| - from
  {
    if from + |pattern| > |s| then None
    else if OccursAt(s, pattern, from) then Some(from)
    else IndexOfFrom(s, pattern, from + 1)
  }

  /** `s.indexOf(pattern)`, with -1 as None: the first occurrence. */
  function IndexOf(s: string, pattern: string): (r: Option<nat>)
    ensures r.Some? ==> OccursAt(s, pattern, r.value)
    ensures r.Some? ==> forall j | j < r.value :: !OccursAt(s, pattern, j)
    ensures r.None? <==> forall j :: !OccursAt(s, pattern, j)
  {
    IndexOfFrom(s, pattern, 0)
  }

  /** `s.replace(pattern, replacement)`: only the first occurrence is
      replaced; without one, `s` is returned as it is. */
  function ReplaceFirst(s: string, pattern: string, replacement: string): (r: string)
    ensures IndexOf(s, pattern).None? ==> r == s
    ensures IndexOf(s, pattern).Some? ==>
              var i := IndexOf(s, pattern).value;
              r == s[..i] + replacement + s[i + |pattern|..]
  {
    match IndexOf(s, pattern)
    case None => s
    case Some(i) => s[..i] + replacement + s[i + |pattern|..]
  }

  const Bearer: string := "Bearer "

  /** `extractToken`: a string is the token itself; in an object a string
      `authorization` header wins, with its first "Bearer " removed, then a
      string `token` field; anything else gives undefined. */
  function ExtractToken(source: TokenSource): (r: Option<string>)
  {
    match source
    case StrSource(s) => Some(s)
    case NullSource => None
    case ObjSource(fields) =>
      if "authorization" in fields && fields["authorization"].StrField? then
        Some(ReplaceFirst(fields["authorization"].s, Bearer, ""))
      else if "token" in fields && fields["token"].StrField? then
        Some(fields["token"].s)
      else None
  }

  /** A string argument is returned unchanged, the empty string included. */
  lemma StringSourceUnchanged(s: string)
    ensures ExtractToken(StrSource(s)) == Some(s)
  {
  }

  /** The sources of a token, in order of precedence: a string
      `authorization` header, then a string `token` field; nothing else
      yields a token. */
  lemma ExtractPrecedence(fields: map<string, FieldValue>)
    ensures ExtractToken(ObjSource(fields)).Some? <==>
              ("authorization" in fields && fields["authorization"].StrField?)
              || ("token" in fields && fields["token"].StrField?)
    ensures "authorization" in fields && fields["authorization"].StrField? ==>
              ExtractToken(ObjSource(fields)) == Some(ReplaceFirst(fields["authorization"].s, Bearer, ""))
    ensures !("authorization" in fields && fields["authorization"].StrField?) && "token" in fields && fields["token"].StrField? ==>
              ExtractToken(ObjSource(fields)) == Some(fields["token"].s)
    ensures ExtractToken(NullSource).None?
  {
  }

  /** A header "Bearer <t>" yields <t>, whatever the `token` field holds. */
  lemma {:induction false} BearerHeaderRoundTrip(t: string, fields: map<string, FieldValue>)
    ensures ExtractToken(ObjSource(fields["authorization" := StrField(Bearer + t)])) == Some(t)
  {
    var h := Bearer + t;
    assert OccursAt(h, Bearer, 0) by {
      assert h[0..|Bearer|] == Bearer;
    }
    assert IndexOf(h, Bearer) == Some(0);
    assert ReplaceFirst(h, Bearer, "") == t by {
      assert h[..0] + "" + h[|Bearer|..] == h[|Bearer|..] == t;
    }
    var obj := fields["authorization" := StrField(h)];
    assert "authorization" in obj && obj["authorization"] == StrField(h);
  }

  /** A header without "Bearer " is taken whole as the token. */
  lemma UnprefixedHeaderKept(h: string, fields: map<string, FieldValue>)
    requires forall j :: !OccursAt(h, Bearer, j)
    ensures ExtractToken(ObjSource(fields["authorization" := StrField(h)])) == Some(h)
  {
    var obj := fields["authorization" := StrField(h)];
    assert "authorization" in obj && obj["authorization"] == StrField(h);
  }

  /** Only the first "Bearer " goes: a doubled prefix leaves one. */
  lemma DoubledBearerKeepsOne()
    ensures ExtractToken(ObjSource(map["authorization" := StrField("Bearer Bearer x")])) == Some("Bearer x")
  {
    var t := "Bearer x";
    assert Bearer + t == "Bearer Bearer x";
    BearerHeaderRoundTrip(t, map[]);
    assert map[]["authorization" := StrField(Bearer + t)] == map["authorization" := StrField("Bearer Bearer x")];
  }

  /** "Bearer " is removed wherever it first stands, not only at the start. */
  lemma InnerBearerRemoved()
    ensures ReplaceFirst("x Bearer y", Bearer, "") == "x y"
  {
    var s := "x Bearer y";
    assert !OccursAt(s, Bearer, 0) by {
      assert s[0..7][0] == 'x';
    }
    assert !OccursAt(s, Bearer, 1) by {
      assert s[1..8][0] == ' ';
    }
    assert OccursAt(s, Bearer, 2) by {
      assert s[2..9] == Bearer;
    }
    assert IndexOf(s, Bearer) == Some(2);
    assert s[..2] + "" + s[9..] == "x y";
  }

  /** A header that is not a string falls through to the `token` field. */
  lemma NonStringHeaderFallsThrough(header: FieldValue, token: string)
    requires !header.StrField?
    ensures ExtractToken(ObjSource(map["authorization" := header, "token" := StrField(token)])) == Some(token)
  {
  }
}
