/**
 Signed tokens in JWS compact form (section 7.1 of RFC 7515) with the time claims of
 sections 4.1.4 and 4.1.5 of RFC 7519. JSON and HMAC are parameters.
 */
module Tokens {
  import opened Common
  import opened Base64Url
  import opened Strings

  datatype Json =
    | JNull
    | JBool(flag: bool)
    | JInt(number: int)
    | JText(text: string)
    | JList(items: seq<Json>)
    | JObject(fields: map<string, Json>)

  // json.dumps(...).encode(), json.loads and HMAC-SHA256 by key and text.
  datatype Primitives = Primitives(dumps: Json -> seq<byte>, loads: seq<byte> -> Option<Json>,
                                   mac: (string, string) -> seq<byte>)

  ghost predicate JsonRoundTrips(p: Primitives) {
    forall j :: p.loads(p.dumps(j)) == Some(j)
  }

  datatype TokenError =
    Malformed | UnsupportedFormat | BadSignature | NotAnObject | WrongContext | Expired | NotYetValid

  const HEADER: Json := JObject(map["alg" := JText("HS256"), "typ" := JText("JWT")])

  function Payload(claims: map<string, Json>, issuer: string, issuedAt: int, lifetime: int,
                   tokenType: string): map<string, Json>
  {
    claims + map[
      "iss" := JText(issuer),
      "iat" := JInt(WholeSeconds(issuedAt)),
      "nbf" := JInt(WholeSeconds(issuedAt)),
      "exp" := JInt(WholeSeconds(issuedAt + lifetime)),
      "typ" := JText(tokenType)]
  }

  function SigningInput(p: Primitives, payload: map<string, Json>): string {
    Encode(p.dumps(HEADER)) + "." + Encode(p.dumps(JObject(payload)))
  }

  function EncodeToken(p: Primitives, claims: map<string, Json>, secret: string, issuer: string, issuedAt: int,
                       lifetime: int,
                       tokenType: string): string {
    var input := SigningInput(p, Payload(claims, issuer, issuedAt, lifetime, tokenType));
    input + "." + Encode(p.mac(secret, input))
  }

  // isinstance(value, int), true of booleans as well.
  function AsInt(j: Option<Json>): Option<int> {
    if j.None? then None
    else
      match j.value
      case JInt(n) => Some(n)
      case JBool(b) => Some(if b then 1 else 0)
      case _ => None
  }

  function Field(fields: map<string, Json>, key: string): Option<Json> {
    if key in fields then Some(fields[key]) else None
  }

  function LoadPart(p: Primitives, part: string): Option<Json> {
    match Decode(part)
    case None => None
    case Some(bytes) => p.loads(bytes)
  }

  function DecodeToken(p: Primitives, token: string, secret: string, issuer: string, expectedType: string, now: int)
    : Result<map<string, Json>, TokenError>
  {
    var parts := Split(token, '.');
    if |parts| != 3 then Err(Malformed)
    else DecodeParts(p, parts[0], parts[1], parts[2], secret, issuer, expectedType, now)
  }

  function DecodeParts(p: Primitives, head: string, body: string, signature: string, secret: string, issuer: string,
                       expectedType: string, now: int): Result<map<string, Json>, TokenError>
  {
    var header, payload := LoadPart(p, head), LoadPart(p, body);
    if header.None? || payload.None? then Err(Malformed)
    else if header.value != HEADER then Err(UnsupportedFormat)
    else if Encode(p.mac(secret, head + "." + body)) != signature then Err(BadSignature)
    else if !payload.value.JObject? then Err(NotAnObject)
    else CheckClaims(payload.value.fields, issuer, expectedType, WholeSeconds(now))
  }

  function CheckClaims(fields: map<string, Json>, issuer: string, expectedType: string, timestamp: int)
    : Result<map<string, Json>, TokenError>
  {
    var exp, nbf := AsInt(Field(fields, "exp")), AsInt(Field(fields, "nbf"));
    if Field(fields, "iss") != Some(JText(issuer)) || Field(fields, "typ") != Some(JText(expectedType)) then
      Err(WrongContext)
    else if exp.None? || timestamp >= exp.value then Err(Expired)
    else if nbf.None? || timestamp < nbf.value then Err(NotYetValid)
    else Ok(fields)
  }

  lemma SplitCompact(a: string, b: string, c: string)
    requires '.' !in a && '.' !in b && '.' !in c
    ensures Split(a + "." + b + "." + c, '.') == [a, b, c]
  {
    SplitPlain(c, '.');
    SplitOnce(b, '.', c);
    SplitOnce(a, '.', b + "." + c);
    assert a + "." + b + "." + c == a + "." + (b + "." + c);
  }

  // --- The round trip ---------------------------------------------------------------

  lemma LoadInvertsDump(p: Primitives, j: Json)
    requires JsonRoundTrips(p)
    ensures LoadPart(p, Encode(p.dumps(j))) == Some(j)
  {
    DecodeInvertsEncode(p.dumps(j));
  }

  lemma ClaimsAreChecked(claims: map<string, Json>, issuer: string, issuedAt: int, lifetime: int, tokenType: string,
                         issuer': string, type': string, timestamp: int)
    ensures var payload := Payload(claims, issuer, issuedAt, lifetime, tokenType);
            var r := CheckClaims(payload, issuer', type', timestamp);
            && (r.Ok? <==> issuer' == issuer && type' == tokenType
                           && WholeSeconds(issuedAt) <= timestamp < WholeSeconds(issuedAt + lifetime))
            && (r.Ok? ==> r.value == payload)
  {
  }

  // The given claims with the five standard fields on top, in whole seconds.
  ghost predicate HoldsClaims(fields: map<string, Json>, claims: map<string, Json>, issuer: string, issuedAt: int,
                              lifetime: int, tokenType: string)
  {
    && fields.Keys == claims.Keys + {"iss", "iat", "nbf", "exp", "typ"}
    && (forall key :: key in claims && key !in {"iss", "iat", "nbf", "exp", "typ"} ==> fields[key] == claims[key])
    && fields["iss"] == JText(issuer) && fields["typ"] == JText(tokenType)
    && fields["iat"] == JInt(WholeSeconds(issuedAt)) && fields["nbf"] == JInt(WholeSeconds(issuedAt))
    && fields["exp"] == JInt(WholeSeconds(issuedAt + lifetime))
  }

  // A token read with a secret, issuer, type and time of its own gives back the claims
  // overlaid with the standard fields exactly when the keyed hash of what was signed, the
  // issuer and the type agree and nbf <= now < exp.
  lemma TokenRoundTrip(p: Primitives, claims: map<string, Json>, secret: string, issuer: string, issuedAt: int,
                       lifetime: int,
                       tokenType: string, secret': string, issuer': string, type': string, now: int)
    requires JsonRoundTrips(p)
    ensures var token := EncodeToken(p, claims, secret, issuer, issuedAt, lifetime, tokenType);
            var parts := Split(token, '.');
            var r := DecodeToken(p, token, secret', issuer', type', now);
            && |parts| == 3
            && (r.Ok? <==> p.mac(secret', parts[0] + "." + parts[1]) == p.mac(secret, parts[0] + "." + parts[1])
                           && issuer' == issuer && type' == tokenType
                           && WholeSeconds(issuedAt) <= WholeSeconds(now) < WholeSeconds(issuedAt + lifetime))
            && (r.Ok? ==> HoldsClaims(r.value, claims, issuer, issuedAt, lifetime, tokenType))
  {
    var payload := Payload(claims, issuer, issuedAt, lifetime, tokenType);
    var input := SigningInput(p, payload);
    var token := EncodeToken(p, claims, secret, issuer, issuedAt, lifetime, tokenType);
    EncodedTokenSplits(p, payload, p.mac(secret, input));
    var parts := Split(token, '.');
    assert |parts| == 3 && input == parts[0] + "." + parts[1];
    SplitTokenDecodes(p, token, parts, payload, secret, secret', issuer', type', now);
    ClaimsAreChecked(claims, issuer, issuedAt, lifetime, tokenType, issuer', type', WholeSeconds(now));
    PayloadHoldsClaims(claims, issuer, issuedAt, lifetime, tokenType);
  }

  lemma PayloadHoldsClaims(claims: map<string, Json>, issuer: string, issuedAt: int, lifetime: int, tokenType: string)
    ensures HoldsClaims(Payload(claims, issuer, issuedAt, lifetime, tokenType), claims, issuer, issuedAt, lifetime,
                        tokenType)
  {
  }

  lemma SplitTokenDecodes(p: Primitives, token: string, parts: seq<string>, payload: map<string, Json>, secret: string,
                          secret': string, issuer': string, type': string, now: int)
    requires JsonRoundTrips(p)
    requires parts == Split(token, '.')
             == [Encode(p.dumps(HEADER)), Encode(p.dumps(JObject(payload))),
                 Encode(p.mac(secret, SigningInput(p, payload)))]
    ensures var input := SigningInput(p, payload);
            DecodeToken(p, token, secret', issuer', type', now)
            == if p.mac(secret', input) != p.mac(secret, input) then Err(BadSignature)
               else CheckClaims(payload, issuer', type', WholeSeconds(now))
  {
    PartsRoundTrip(p, payload, secret, secret', issuer', type', now);
  }

  lemma PartsRoundTrip(p: Primitives, payload: map<string, Json>, secret: string, secret': string, issuer': string,
                       type': string, now: int)
    requires JsonRoundTrips(p)
    ensures var input := SigningInput(p, payload);
            DecodeParts(p, Encode(p.dumps(HEADER)), Encode(p.dumps(JObject(payload))), Encode(p.mac(secret, input)),
                        secret', issuer', type', now)
            == if p.mac(secret', input) != p.mac(secret, input) then Err(BadSignature)
               else CheckClaims(payload, issuer', type', WholeSeconds(now))
  {
    var input := SigningInput(p, payload);
    LoadInvertsDump(p, HEADER);
    LoadInvertsDump(p, JObject(payload));
    if Encode(p.mac(secret', input)) == Encode(p.mac(secret, input)) {
      EncodeIsInjective(p.mac(secret', input), p.mac(secret, input));
    }
  }

  lemma EncodedTokenSplits(p: Primitives, payload: map<string, Json>, signature: seq<byte>)
    ensures Split(SigningInput(p, payload) + "." + Encode(signature), '.')
         == [Encode(p.dumps(HEADER)), Encode(p.dumps(JObject(payload))), Encode(signature)]
  {
    EncodeHasNoDot(p.dumps(HEADER));
    EncodeHasNoDot(p.dumps(JObject(payload)));
    EncodeHasNoDot(signature);
    SplitCompact(Encode(p.dumps(HEADER)), Encode(p.dumps(JObject(payload))), Encode(signature));
  }

  lemma JoinThree(a: string, b: string, c: string)
    ensures Join([a, b, c], '.') == a + "." + b + "." + c
  {
    assert [a, b, c][1..] == [b, c] && [b, c][1..] == [c];
    assert Join([c], '.') == c && Join([b, c], '.') == b + "." + c;
    assert a + "." + (b + "." + c) == a + "." + b + "." + c;
  }

  // The field holds a number, a boolean counting as 0 or 1, as Python has it.
  ghost predicate HoldsInt(fields: map<string, Json>, key: string, n: int) {
    key in fields && (fields[key] == JInt(n) || (n in {0, 1} && fields[key] == JBool(n == 1)))
  }

  // Issued for this context, not yet expired and already valid.
  ghost predicate InForce(fields: map<string, Json>, issuer: string, expectedType: string, timestamp: int) {
    && "iss" in fields && fields["iss"] == JText(issuer) && "typ" in fields && fields["typ"] == JText(expectedType)
    && (exists exp :: HoldsInt(fields, "exp", exp) && timestamp < exp)
    && (exists nbf :: HoldsInt(fields, "nbf", nbf) && nbf <= timestamp)
  }

  // Claims are accepted exactly while they are in force.
  lemma ClaimsInForceExactly(fields: map<string, Json>, issuer: string, expectedType: string, timestamp: int)
    ensures CheckClaims(fields, issuer, expectedType, timestamp).Ok? <==>
              InForce(fields, issuer, expectedType, timestamp)
    ensures CheckClaims(fields, issuer, expectedType, timestamp).Ok? ==>
              CheckClaims(fields, issuer, expectedType, timestamp).value == fields
  {
    IntFieldExactly(fields, "exp");
    IntFieldExactly(fields, "nbf");
  }

  lemma IntFieldExactly(fields: map<string, Json>, key: string)
    ensures forall n :: HoldsInt(fields, key, n) <==> AsInt(Field(fields, key)) == Some(n)
  {
  }

  // Any accepted text, wherever it comes from, is a signing input followed by the one
  // signature the secret gives it, under the one header, with claims that are in force.
  lemma AcceptedTokenIsSigned(p: Primitives, token: string, secret: string, issuer: string, expectedType: string,
                              now: int)
    requires DecodeToken(p, token, secret, issuer, expectedType, now).Ok?
    ensures var parts := Split(token, '.');
            && |parts| == 3
            && token == (parts[0] + "." + parts[1]) + "." + Encode(p.mac(secret, parts[0] + "." + parts[1]))
            && LoadPart(p, parts[0]) == Some(JObject(map["alg" := JText("HS256"), "typ" := JText("JWT")]))
            && LoadPart(p, parts[1]) == Some(JObject(DecodeToken(p, token, secret, issuer, expectedType, now).value))
    ensures InForce(DecodeToken(p, token, secret, issuer, expectedType, now).value, issuer, expectedType,
                    WholeSeconds(now))
  {
    var parts := Split(token, '.');
    JoinInvertsSplit(token, '.');
    assert parts == [parts[0], parts[1], parts[2]];
    JoinThree(parts[0], parts[1], parts[2]);
    AcceptedParts(p, parts[0], parts[1], parts[2], secret, issuer, expectedType, now);
  }

  lemma AcceptedParts(p: Primitives, head: string, body: string, signature: string, secret: string, issuer: string,
                      expectedType: string, now: int)
    requires DecodeParts(p, head, body, signature, secret, issuer, expectedType, now).Ok?
    ensures signature == Encode(p.mac(secret, head + "." + body))
    ensures LoadPart(p, head) == Some(JObject(map["alg" := JText("HS256"), "typ" := JText("JWT")]))
    ensures InForce(DecodeParts(p, head, body, signature, secret, issuer, expectedType, now).value, issuer,
                    expectedType, WholeSeconds(now))
    ensures LoadPart(p, body)
            == Some(JObject(DecodeParts(p, head, body, signature, secret, issuer, expectedType, now).value))
  {
    var payload := LoadPart(p, body);
    ClaimsInForceExactly(payload.value.fields, issuer, expectedType, WholeSeconds(now));
  }
}
