/**
 * Session tokens (mcp_server/server.py, `create_jwt_token` and
 * `validate_jwt_token`): a JWT (section 3 of RFC 7519) in the JWS compact
 * serialization (section 7.1 of RFC 7515), each segment base64url-encoded
 * with its padding stripped (section 2 of RFC 7515, alphabet of section 5 of
 * RFC 4648), signed with HMAC-SHA256 ("HS256", section 3.2 of RFC 7518).
 *
 * The hash, the base64 codec and the JSON codec are library calls; they are
 * the function-valued fields of `Primitives` and stay uninterpreted. The
 * base64 laws the proofs use are collected in `Lawful`; the JSON round trip
 * is required of the one value a lemma is about (`JsonRoundTrips`), since
 * no byte encoding can carry every real number.
 */
module Token {
  import opened Wrappers
  import PyStr

  type Bytes = seq<bv8>

  /** A JSON value as `json.dumps` writes it and `json.loads` reads it. */
  datatype Json =
    | JNull
    | JBool(b: bool)
    | JNum(n: real)
    | JStr(s: string)
    | JArray(items: seq<Json>)
    | JObject(fields: map<string, Json>)

  /** The library calls the codec makes. */
  datatype Primitives = Primitives(
    /** `base64.urlsafe_b64encode(b).decode()`, padding included */
    urlsafeB64Encode: Bytes -> string,
    /** `base64.urlsafe_b64decode(s.encode())`; `None` where it raises */
    urlsafeB64Decode: string -> Option<Bytes>,
    /** `hmac.new(key.encode(), msg.encode(), hashlib.sha256).digest()` */
    hmacSha256: (string, string) -> Bytes,
    /** `json.dumps(j, separators=(',', ':')).encode()` */
    dumps: Json -> Bytes,
    /** `json.loads(b.decode())`; `None` where decoding or parsing raises */
    loads: Bytes -> Option<Json>)

  /** The fixed signing secret, shared by issuing and checking. */
  const Secret := "demo-secret-key-123"

  /** Seconds from issue to expiry. */
  const Lifetime: real := 3600.0

  /** A segment as the token carries it: base64url with the trailing `=` stripped. */
  function Encode(p: Primitives, b: Bytes): string {
    PyStr.RStripChar(p.urlsafeB64Encode(b), '=')
  }

  /** `s + '=' * (4 - len(s) % 4)`: the padding put back before decoding. */
  function Pad(s: string): (r: string)
    ensures 1 <= |r| - |s| <= 4 && r[..|s|] == s
  {
    s + PyStr.Repeat('=', 4 - |s| % 4)
  }

  /** The signature segment for `header.payload`. */
  function Sign(p: Primitives, header: string, payload: string): string {
    Encode(p, p.hmacSha256(Secret, header + "." + payload))
  }

  /** `header.payload.signature` for the given header and payload values. */
  function Assemble(p: Primitives, header: Json, payload: Json): string {
    var h := Encode(p, p.dumps(header));
    var c := Encode(p, p.dumps(payload));
    h + "." + c + "." + Sign(p, h, c)
  }

  /** `{"typ": "JWT", "alg": "HS256"}` */
  const Header: Json := JObject(map["typ" := JStr("JWT"), "alg" := JStr("HS256")])

  /** The claims of a token issued at `now`. */
  function Claims(userId: string, username: string, now: real): map<string, Json> {
    map["user_id" := JStr(userId), "username" := JStr(username),
        "exp" := JNum(now + Lifetime), "iat" := JNum(now)]
  }

  /** `create_jwt_token(user_id, username)` at time `now`. */
  function Create(p: Primitives, userId: string, username: string, now: real): string {
    Assemble(p, Header, JObject(Claims(userId, username, now)))
  }

  /**
   * `payload.get('exp', 0)` as the number it is compared as: a missing
   * claim counts as 0, a boolean as 0 or 1; `None` for any other value,
   * whose comparison with a float raises `TypeError`.
   */
  function Expiry(claims: map<string, Json>): Option<real> {
    if "exp" !in claims then Some(0.0)
    else match claims["exp"]
      case JNum(x) => Some(x)
      case JBool(b) => Some(if b then 1.0 else 0.0)
      case _ => None
  }

  /**
   * `validate_jwt_token(token)` at time `now`: the claims, or `None` when
   * the token does not have three segments, when its signature differs from
   * the recomputed one, when the payload does not decode to a JSON object,
   * or when it expired before `now`.
   */
  function Validate(p: Primitives, token: string, now: real): (r: Option<map<string, Json>>)
    ensures |PyStr.Split(token, '.')| != 3 ==> r == None
    ensures r.Some? ==>
      var parts := PyStr.Split(token, '.');
      parts[2] == Sign(p, parts[0], parts[1])
    ensures r.Some? ==> Expiry(r.value).Some? && now <= Expiry(r.value).value
  {
    var parts := PyStr.Split(token, '.');
    if |parts| != 3 then None
    else if parts[2] != Sign(p, parts[0], parts[1]) then None
    else match p.urlsafeB64Decode(Pad(parts[1]))
      case None => None
      case Some(bytes) =>
        match p.loads(bytes)
        case Some(JObject(claims)) =>
          (match Expiry(claims)
           case None => None
           case Some(exp) => if exp < now then None else Some(claims))
        case _ => None
  }

  /**
   * What the proofs rely on from the base64 calls: no encoding contains `.`
   * (it is not in the base64url alphabet), and decoding the re-padded
   * encoding gives the bytes back.
   */
  ghost predicate Lawful(p: Primitives) {
    && (forall b :: '.' !in Encode(p, b))
    && (forall b :: p.urlsafeB64Decode(Pad(Encode(p, b))) == Some(b))
  }

  /** `json.loads(json.dumps(j)) == j` for this one value. */
  ghost predicate JsonRoundTrips(p: Primitives, j: Json) {
    p.loads(p.dumps(j)) == Some(j)
  }

  /** A string with exactly two dots splits into the three segments around them. */
  lemma Segments(h: string, c: string, s: string)
    requires '.' !in h && '.' !in c && '.' !in s
    ensures PyStr.Split(h + "." + c + "." + s, '.') == [h, c, s]
  {
    var parts := [h, c, s];
    assert PyStr.Join(parts[2..], '.') == s;
    assert PyStr.Join(parts[1..], '.') == c + "." + s;
    assert PyStr.Join(parts, '.') == h + "." + c + "." + s;
    PyStr.SplitJoin(parts, '.');
  }

  /**
   * What validating an assembled token gives: the payload object, unless
   * the payload is not an object, its `exp` cannot be compared, or `exp`
   * is earlier than `now`.
   */
  lemma ValidateAssembled(p: Primitives, header: Json, payload: Json, now: real)
    requires Lawful(p) && JsonRoundTrips(p, payload)
    ensures Validate(p, Assemble(p, header, payload), now) ==
      match payload
      case JObject(claims) =>
        (match Expiry(claims)
         case None => None
         case Some(exp) => if exp < now then None else Some(claims))
      case _ => None
  {
    var h := Encode(p, p.dumps(header));
    var c := Encode(p, p.dumps(payload));
    var s := Sign(p, h, c);
    Segments(h, c, s);
    assert p.urlsafeB64Decode(Pad(c)) == Some(p.dumps(payload));
  }

  /**
   * Round trip: a token from `create_jwt_token` validates, at any time up
   * to and including its expiry, to the claims it was issued with; at any
   * later time it is rejected.
   */
  lemma CreateThenValidate(p: Primitives, userId: string, username: string, issued: real, now: real)
    requires Lawful(p) && JsonRoundTrips(p, JObject(Claims(userId, username, issued)))
    ensures Validate(p, Create(p, userId, username, issued), now) ==
      if now <= issued + Lifetime then Some(Claims(userId, username, issued)) else None
  {
    ValidateAssembled(p, Header, JObject(Claims(userId, username, issued)), now);
  }

  /** The validated claims carry the user id and name, and both timestamps. */
  lemma ValidatedClaims(p: Primitives, userId: string, username: string, issued: real, now: real)
    requires Lawful(p) && JsonRoundTrips(p, JObject(Claims(userId, username, issued)))
    requires now <= issued + Lifetime
    ensures
      var r := Validate(p, Create(p, userId, username, issued), now);
      && r.Some?
      && r.value.Keys == {"user_id", "username", "exp", "iat"}
      && r.value["user_id"] == JStr(userId)
      && r.value["username"] == JStr(username)
      && r.value["exp"] == JNum(issued + Lifetime)
      && r.value["iat"] == JNum(issued)
  {
    CreateThenValidate(p, userId, username, issued, now);
  }

  /**
   * Tamper detection: with the header and payload segments kept, any
   * signature segment other than the recomputed one is rejected.
   */
  lemma ForgedSignatureRejected(p: Primitives, h: string, c: string, s: string, now: real)
    requires '.' !in h && '.' !in c && '.' !in s
    requires s != Sign(p, h, c)
    ensures Validate(p, h + "." + c + "." + s, now) == None
  {
    Segments(h, c, s);
  }

  /** A token is only ever accepted when it contains exactly two dots. */
  lemma AcceptedHasTwoDots(p: Primitives, token: string, now: real)
    requires Validate(p, token, now).Some?
    ensures PyStr.Count(token, '.') == 2
  {
    PyStr.SplitCount(token, '.');
  }

  /** A correctly signed payload without `exp` is treated as expiring at time 0. */
  lemma MissingExpiryIsZero(p: Primitives, claims: map<string, Json>, now: real)
    requires Lawful(p) && JsonRoundTrips(p, JObject(claims))
    requires "exp" !in claims
    ensures Validate(p, Assemble(p, Header, JObject(claims)), now) ==
      if now <= 0.0 then Some(claims) else None
  {
    ValidateAssembled(p, Header, JObject(claims), now);
  }

  // ---------------------------------------------------------------------
  // The base64 laws are consistent
  // ---------------------------------------------------------------------

  /** A toy byte codec: byte `b` is the character with code `256 + b`. */
  function WideEncode(b: Bytes): (s: string)
    ensures |s| == |b|
  {
    seq(|b|, i requires 0 <= i < |b| => (b[i] as int + 256) as char)
  }

  /** Drops the trailing `=`, then reads every character back as a byte, failing on any other character. */
  function WideDecode(s: string): Option<Bytes> {
    var t := PyStr.RStripChar(s, '=');
    if forall i :: 0 <= i < |t| ==> 256 <= t[i] as int < 512 then
      Some(seq(|t|, i requires 0 <= i < |t| => (t[i] as int - 256) as bv8))
    else None
  }

  /** The toy codec, whose `json.loads` always reads back `j`; the other calls are arbitrary. */
  function WideCodec(j: Json): Primitives {
    Primitives(WideEncode, WideDecode, (k, m) => [], v => [], b => Some(j))
  }

  /** Stripping `=` from a string that does not end in `=`, padded with `=`, gives it back. */
  lemma StripPadding(t: string, k: nat)
    requires t == [] || t[|t| - 1] != '='
    ensures PyStr.RStripChar(t + PyStr.Repeat('=', k), '=') == t
  {
    var s := t + PyStr.Repeat('=', k);
    var r := PyStr.RStripChar(s, '=');
    if t != [] {
      assert s[|t| - 1] != '=';
    }
    if r != [] {
      assert s[|r| - 1] == r[|r| - 1];
    }
    assert forall i :: |t| <= i < |s| ==> s[i] == '=';
    assert |r| == |t|;
    assert r == s[..|t|] == t;
  }

  /** The toy encoding has no `=` to strip and no `.`. */
  lemma WideEncoded(j: Json, b: Bytes)
    ensures Encode(WideCodec(j), b) == WideEncode(b)
    ensures '.' !in WideEncode(b)
  {
    var w := WideEncode(b);
    StripPadding(w, 0);
    assert w + PyStr.Repeat('=', 0) == w;
  }

  /** The toy decoding reads a padded toy encoding back. */
  lemma WideDecodesPadded(b: Bytes, k: nat)
    ensures WideDecode(WideEncode(b) + PyStr.Repeat('=', k)) == Some(b)
  {
    var w := WideEncode(b);
    StripPadding(w, k);
    var d := seq(|w|, i requires 0 <= i < |w| => (w[i] as int - 256) as bv8);
    assert d == b;
  }

  /**
   * For every JSON value some codec meets the base64 laws and round-trips
   * that value, so the lemmas that require both are about actual codecs.
   */
  lemma LawfulSatisfiable(j: Json)
    ensures Lawful(WideCodec(j)) && JsonRoundTrips(WideCodec(j), j)
  {
    var p := WideCodec(j);
    forall b: Bytes
      ensures '.' !in Encode(p, b) && p.urlsafeB64Decode(Pad(Encode(p, b))) == Some(b)
    {
      WideEncoded(j, b);
      WideDecodesPadded(b, 4 - |WideEncode(b)| % 4);
    }
  }
}
