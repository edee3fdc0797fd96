/** `create_jwt` of index.php: the JWS Compact Serialization (section 7.1 of
    RFC 7515) of a JWT bearer assertion (section 3 of RFC 7523) signed with
    RS256 (section 3.3 of RFC 7518). The clock, the JSON serialiser and the
    RSA signer are not modelled: the time is an argument, and `json_encode`
    and `openssl_sign` are function arguments whose results may be absent,
    as PHP's `false`. */
module Jwt {
  import opened Wrappers
  import Base64
  import Base64Url
  import Text

  /** The PHP values handed to `json_encode`: strings, integers and
      associative arrays, whose members keep their insertion order. */
  datatype Json =
    | JString(str: string)
    | JInt(num: int)
    | JObject(members: seq<(string, Json)>)

  /** The two fields of the service-account key file that are used. */
  datatype Credentials = Credentials(clientEmail: string, privateKey: string)

  /** `json_encode`: the bytes of the JSON text, or `None` for its `false`. */
  type JsonEncoder = Json -> Option<seq<Base64.Byte>>

  /** `openssl_sign` with SHA-256: the signature of the data under the
      private key, or `None` when signing fails. */
  type Signer = (string, string) -> Option<seq<Base64.Byte>>

  const TOKEN_AUDIENCE := "https://oauth2.googleapis.com/token"
  const ANALYTICS_SCOPE := "https://www.googleapis.com/auth/analytics.readonly"
  /** Seconds from issue to expiry. */
  const TOKEN_LIFETIME := 3600

  /** The JOSE header `{alg: "RS256", typ: "JWT"}`. */
  function Header(): Json {
    JObject([("alg", JString("RS256")), ("typ", JString("JWT"))])
  }

  /** The claim set of a token issued at `now` by the service account. */
  function ClaimSet(cred: Credentials, now: int): Json {
    JObject([
      ("iss", JString(cred.clientEmail)),
      ("sub", JString(cred.clientEmail)),
      ("aud", JString(TOKEN_AUDIENCE)),
      ("iat", JInt(now)),
      ("exp", JInt(now + TOKEN_LIFETIME)),
      ("scope", JString(ANALYTICS_SCOPE))
    ])
  }

  /** A member of an object by name, as a reader of the decoded JSON sees it. */
  function Member(obj: Json, name: string): Option<Json> {
    match obj
    case JObject(members) => Lookup(members, name)
    case _ => None
  }

  function Lookup(members: seq<(string, Json)>, name: string): Option<Json>
    decreases |members|
  {
    if |members| == 0 then None
    else if members[0].0 == name then Some(members[0].1)
    else Lookup(members[1..], name)
  }

  /** Lookup finds the first member with the name. */
  lemma {:induction false} LookupAt(members: seq<(string, Json)>, k: nat, name: string)
    requires k < |members| && members[k].0 == name
    requires forall j :: 0 <= j < k ==> members[j].0 != name
    ensures Lookup(members, name) == Some(members[k].1)
    decreases k
  {
    if k > 0 {
      LookupAt(members[1..], k - 1, name);
    }
  }

  /** What `base64url_encode` receives: PHP's `base64_encode` turns `false`
      or `null` into the empty string, so a failure is encoded as no bytes. */
  function BytesOrEmpty(r: Option<seq<Base64.Byte>>): seq<Base64.Byte> {
    r.GetOr([])
  }

  /** `create_jwt` (index.php:9-38). */
  function CreateJwt(cred: Credentials, now: int, jsonEncode: JsonEncoder, sign: Signer): string {
    var header := Base64Url.Encode(BytesOrEmpty(jsonEncode(Header())));
    var payload := Base64Url.Encode(BytesOrEmpty(jsonEncode(ClaimSet(cred, now))));
    var unsignedJwt := header + "." + payload;
    unsignedJwt + "." + Base64Url.Encode(BytesOrEmpty(sign(cred.privateKey, unsignedJwt)))
  }

  /** The claim set names the service account as issuer and subject, is
      addressed to the token endpoint for the read-only Analytics scope, and
      expires exactly one hour after it is issued. */
  lemma {:induction false} ClaimSetInvariants(cred: Credentials, now: int)
    ensures Member(ClaimSet(cred, now), "iss") == Some(JString(cred.clientEmail))
    ensures Member(ClaimSet(cred, now), "sub") == Some(JString(cred.clientEmail))
    ensures Member(ClaimSet(cred, now), "aud") == Some(JString("https://oauth2.googleapis.com/token"))
    ensures Member(ClaimSet(cred, now), "scope") == Some(JString("https://www.googleapis.com/auth/analytics.readonly"))
    ensures Member(ClaimSet(cred, now), "iat") == Some(JInt(now))
    ensures Member(ClaimSet(cred, now), "exp") == Some(JInt(now + 3600))
  {
    var m := ClaimSet(cred, now).members;
    LookupAt(m, 0, "iss");
    LookupAt(m, 1, "sub");
    LookupAt(m, 2, "aud");
    LookupAt(m, 3, "iat");
    LookupAt(m, 4, "exp");
    LookupAt(m, 5, "scope");
  }

  /** The header names the RS256 algorithm and the JWT type. */
  lemma {:induction false} HeaderFields()
    ensures Member(Header(), "alg") == Some(JString("RS256"))
    ensures Member(Header(), "typ") == Some(JString("JWT"))
  {
    LookupAt(Header().members, 0, "alg");
    LookupAt(Header().members, 1, "typ");
  }

  /** Three separator-free pieces joined by `.` split back into themselves. */
  lemma {:induction false} SplitThree(a: string, b: string, c: string)
    requires '.' !in a && '.' !in b && '.' !in c
    ensures Text.Split(a + "." + b + "." + c, '.') == [a, b, c]
  {
    assert a + "." + b + "." + c == a + ['.'] + (b + ['.'] + c);
    Text.SplitAfterPrefix(a, '.', b + ['.'] + c);
    Text.SplitAfterPrefix(b, '.', c);
    Text.SplitWithoutSeparator(c, '.');
  }

  /** The token has exactly three `.`-separated segments: the encoded
      header, the encoded claim set, and the encoded signature of exactly
      the first two joined by `.`; each decodes back to what was encoded. */
  lemma {:induction false} Segments(cred: Credentials, now: int, jsonEncode: JsonEncoder, sign: Signer)
    ensures var parts := Text.Split(CreateJwt(cred, now, jsonEncode, sign), '.');
            && |parts| == 3
            && parts[0] == Base64Url.Encode(BytesOrEmpty(jsonEncode(Header())))
            && parts[1] == Base64Url.Encode(BytesOrEmpty(jsonEncode(ClaimSet(cred, now))))
            && parts[2] == Base64Url.Encode(BytesOrEmpty(sign(cred.privateKey, parts[0] + "." + parts[1])))
            && Base64Url.Decode(parts[0]) == Some(BytesOrEmpty(jsonEncode(Header())))
            && Base64Url.Decode(parts[1]) == Some(BytesOrEmpty(jsonEncode(ClaimSet(cred, now))))
            && Base64Url.Decode(parts[2]) == Some(BytesOrEmpty(sign(cred.privateKey, parts[0] + "." + parts[1])))
  {
    var hBytes := BytesOrEmpty(jsonEncode(Header()));
    var pBytes := BytesOrEmpty(jsonEncode(ClaimSet(cred, now)));
    var h := Base64Url.Encode(hBytes);
    var p := Base64Url.Encode(pBytes);
    var sBytes := BytesOrEmpty(sign(cred.privateKey, h + "." + p));
    var s := Base64Url.Encode(sBytes);
    Base64Url.EncodeAlphabet(hBytes);
    Base64Url.EncodeAlphabet(pBytes);
    Base64Url.EncodeAlphabet(sBytes);
    assert CreateJwt(cred, now, jsonEncode, sign) == h + "." + p + "." + s;
    SplitThree(h, p, s);
    Base64Url.DecodeEncode(hBytes);
    Base64Url.DecodeEncode(pBytes);
    Base64Url.DecodeEncode(sBytes);
  }

  /** The first segment depends only on the serialiser: it is the same for
      every service account, every issue time and every signer. */
  lemma {:induction false} HeaderSegmentFixed(
    cred1: Credentials, now1: int, sign1: Signer,
    cred2: Credentials, now2: int, sign2: Signer,
    jsonEncode: JsonEncoder)
    ensures Text.Split(CreateJwt(cred1, now1, jsonEncode, sign1), '.')[0]
         == Text.Split(CreateJwt(cred2, now2, jsonEncode, sign2), '.')[0]
  {
    Segments(cred1, now1, jsonEncode, sign1);
    Segments(cred2, now2, jsonEncode, sign2);
  }

  /** Decoding the second segment gives the serialised claim set, and that
      claim set has the issuer, subject and lifetime the grant requires: a
      reader who decodes the payload finds `iss == sub == client_email` and
      `exp - iat == 3600`. */
  lemma {:induction false} PayloadClaims(cred: Credentials, now: int, jsonEncode: JsonEncoder, sign: Signer)
    ensures var parts := Text.Split(CreateJwt(cred, now, jsonEncode, sign), '.');
            && |parts| == 3
            && exists claims: Json ::
                 && Base64Url.Decode(parts[1]) == Some(BytesOrEmpty(jsonEncode(claims)))
                 && Member(claims, "iss") == Some(JString(cred.clientEmail))
                 && Member(claims, "sub") == Some(JString(cred.clientEmail))
                 && Member(claims, "iat") == Some(JInt(now))
                 && Member(claims, "exp") == Some(JInt(now + 3600))
  {
    Segments(cred, now, jsonEncode, sign);
    ClaimSetInvariants(cred, now);
    var claims := ClaimSet(cred, now);
    assert Base64Url.Decode(Text.Split(CreateJwt(cred, now, jsonEncode, sign), '.')[1]) == Some(BytesOrEmpty(jsonEncode(claims)));
  }
}
