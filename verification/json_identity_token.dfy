/**
 * JsonIdentityToken: the token class the authentication adapter consumes. The
 * constructor checks its configuration and parses the raw string once; the checks and
 * getters read the parsed fields; `Create` is the factory that signs a record.
 */
module JsonIdentityTokens {
  import opened Wrappers
  import opened Php
  import opened TokenFormat

  const ERR_CREATE := "Error creating token!"

  class JsonIdentityToken {
    const token: string
    const secret: string
    const expires: int
    const builtins: Builtins

    var hmac: Option<string>
    var msg: Option<string>
    var data: Option<map<string, Value>>

    function State(): TokenState
      reads this
    {
      TokenState(hmac, msg, data)
    }

    /** The part of the constructor after its two checks have passed (see `New`). */
    constructor (token: string, secret: string, expires: int, builtins: Builtins)
      requires ConstructionError(secret, expires).None?
      ensures this.token == token && this.secret == secret && this.expires == expires
      ensures this.builtins == builtins
      ensures State() == TokenFormat.Parse(token, builtins.jsonDecode, true)
    {
      this.token := token;
      this.secret := secret;
      this.expires := expires;
      this.builtins := builtins;
      hmac, msg, data := None, None, None;
      new;
      Parse();
    }

    /** _parse: split off the tag, decode the message and keep only scalar field values. */
    method Parse()
      requires State() == UNPARSED
      modifies this
      ensures State() == TokenFormat.Parse(token, builtins.jsonDecode, true)
    {
      if !StrTruthy(token) || |token| < HMAC_SIZE {
        return;
      }
      hmac := Some(token[..HMAC_SIZE]);
      msg := Some(token[HMAC_SIZE..]);
      var decoded := builtins.jsonDecode(msg.value);
      var filled := FillData(Decoded(decoded), true);
      data := Some(filled);
    }

    /** isAuthentic: false without a tag; after the constructor's parse, true exactly when the
        token string's first 64 characters are the HMAC of the rest under the secret. */
    function IsAuthentic(): (r: bool)
      reads this
      ensures hmac.None? ==> !r
      ensures State() == TokenFormat.Parse(token, builtins.jsonDecode, true) ==>
        (r <==> CanParse(token) && builtins.hmac(token[HMAC_SIZE..], secret) == token[..HMAC_SIZE])
    {
      TokenFormat.IsAuthentic(State(), secret, builtins.hmac)
    }

    /** isExpired: never without an issued time, otherwise when more than `expires` seconds
        have passed since intval of it. */
    function IsExpired(now: int): (r: bool)
      reads this
      ensures GetIssued() == Null ==> !r
      ensures GetIssued() != Null ==> (r <==> now - Intval(GetIssued()) > expires)
    {
      TokenFormat.IsExpired(State(), expires, now)
    }

    /** isValid: authentic, with the required fields, and not expired at time `now`; a valid
        token has a tag, an id and an issued time. */
    function IsValid(now: int): (r: bool)
      reads this
      ensures r <==> IsAuthentic() && HasRequiredFields(State()) && !IsExpired(now)
      ensures r ==> hmac.Some? && GetId() != Null && GetIssued() != Null
    {
      TokenFormat.IsValid(State(), secret, expires, builtins.hmac, now)
    }

    method HasValidFields() returns (has: bool)
      ensures has == HasRequiredFields(State())
    {
      has := CheckRequiredFields(data);
    }

    method ValidationErrors(now: int) returns (errors: seq<string>)
      ensures errors == TokenFormat.ValidationErrors(State(), secret, expires, builtins.hmac, now)
      ensures errors == [] <==> IsValid(now)
    {
      var hasFields := HasValidFields();
      errors := CollectErrors(IsAuthentic(), hasFields, IsExpired(now));
    }

    /** getToken: the raw token string the object was built from. */
    function GetToken(): (r: string)
      ensures r == token
    {
      token
    }

    /** The id claim: null when there are no claims; after the constructor's parse, the
        id claim of the token string. */
    function GetId(): (v: Value)
      reads this
      ensures data.None? ==> v == Null
      ensures State() == TokenFormat.Parse(token, builtins.jsonDecode, true) ==> v == ParsedField(token, builtins.jsonDecode, "id", true)
      ensures State() == TokenFormat.Parse(token, builtins.jsonDecode, true) ==> v.Null? || IsScalar(v)
    {
      Field(State(), "id")
    }

    /** The issued claim: null when there are no claims; after the constructor's parse, the
        issued claim of the token string. */
    function GetIssued(): (v: Value)
      reads this
      ensures data.None? ==> v == Null
      ensures State() == TokenFormat.Parse(token, builtins.jsonDecode, true) ==> v == ParsedField(token, builtins.jsonDecode, "issued", true)
      ensures State() == TokenFormat.Parse(token, builtins.jsonDecode, true) ==> v.Null? || IsScalar(v)
    {
      Field(State(), "issued")
    }

    /** The role claim: null when there are no claims; after the constructor's parse, the
        role claim of the token string. */
    function GetRole(): (v: Value)
      reads this
      ensures data.None? ==> v == Null
      ensures State() == TokenFormat.Parse(token, builtins.jsonDecode, true) ==> v == ParsedField(token, builtins.jsonDecode, "role", true)
      ensures State() == TokenFormat.Parse(token, builtins.jsonDecode, true) ==> v.Null? || IsScalar(v)
    {
      Field(State(), "role")
    }

    /** The name claim: null when there are no claims; after the constructor's parse, the
        name claim of the token string. */
    function GetName(): (v: Value)
      reads this
      ensures data.None? ==> v == Null
      ensures State() == TokenFormat.Parse(token, builtins.jsonDecode, true) ==> v == ParsedField(token, builtins.jsonDecode, "name", true)
      ensures State() == TokenFormat.Parse(token, builtins.jsonDecode, true) ==> v.Null? || IsScalar(v)
    {
      Field(State(), "name")
    }

    /** The email claim: null when there are no claims; after the constructor's parse, the
        email claim of the token string. */
    function GetEmail(): (v: Value)
      reads this
      ensures data.None? ==> v == Null
      ensures State() == TokenFormat.Parse(token, builtins.jsonDecode, true) ==> v == ParsedField(token, builtins.jsonDecode, "email", true)
      ensures State() == TokenFormat.Parse(token, builtins.jsonDecode, true) ==> v.Null? || IsScalar(v)
    {
      Field(State(), "email")
    }
  }

  /** The constructor with its checks: a secret under 32 bytes or a negative expiry is an exception. */
  method New(token: string, secret: string, expires: int, builtins: Builtins) returns (r: Result<JsonIdentityToken, string>)
    ensures r.Failure? <==> ConstructionError(secret, expires).Some?
    ensures r.Failure? ==> r.error == ConstructionError(secret, expires).value
    ensures r.Success? ==>
              && fresh(r.value) && r.value.token == token && r.value.secret == secret
              && r.value.expires == expires && r.value.builtins == builtins
              && r.value.State() == TokenFormat.Parse(token, builtins.jsonDecode, true)
  {
    if |secret| < MIN_SECRET_SIZE {
      return Failure(ERR_SECRET);
    }
    if expires < 0 {
      return Failure(ERR_EXPIRES);
    }
    var t := new JsonIdentityToken(token, secret, expires, builtins);
    r := Success(t);
  }

  /** The record create() encodes: the caller's data with `issued` set to the current time. */
  function StampedData(data: map<string, Value>, issuedAt: int): map<string, Value> {
    data["issued" := Int(issuedAt)]
  }

  /** The raw token create() builds: the HMAC of the encoded message followed by the message. */
  function SignedMessage(data: map<string, Value>, secret: string, builtins: Builtins,
                         jsonEncode: map<string, Value> -> string, issuedAt: int): string {
    var m := jsonEncode(StampedData(data, issuedAt));
    builtins.hmac(m, secret) + m
  }

  /** What create() returns or throws. `issuedAt` is time() when the message is encoded and
      `checkedAt` is time() when the new token is checked. */
  function CreateOutcome(data: map<string, Value>, secret: string, expires: int, builtins: Builtins,
                         jsonEncode: map<string, Value> -> string, issuedAt: int, checkedAt: int): Result<TokenState, string> {
    if ConstructionError(secret, expires).Some? then Failure(ConstructionError(secret, expires).value)
    else
      var st := TokenFormat.Parse(SignedMessage(data, secret, builtins, jsonEncode, issuedAt), builtins.jsonDecode, true);
      if TokenFormat.IsValid(st, secret, expires, builtins.hmac, checkedAt) then Success(st) else Failure(ERR_CREATE)
  }

  /** create: sign the stamped record, construct the token, and throw unless it is valid. */
  method Create(data: map<string, Value>, secret: string, expires: int, builtins: Builtins,
                jsonEncode: map<string, Value> -> string, issuedAt: int, checkedAt: int)
    returns (r: Result<JsonIdentityToken, string>)
    ensures var out := CreateOutcome(data, secret, expires, builtins, jsonEncode, issuedAt, checkedAt);
      && (r.Failure? <==> out.Failure?)
      && (r.Failure? ==> r.error == out.error)
      && (r.Success? ==> fresh(r.value) && r.value.State() == out.value
                         && r.value.token == SignedMessage(data, secret, builtins, jsonEncode, issuedAt))
  {
    var msg := jsonEncode(StampedData(data, issuedAt));
    var signed := builtins.hmac(msg, secret) + msg;
    var made := New(signed, secret, expires, builtins);
    if made.Failure? {
      return Failure(made.error);
    }
    var t := made.value;
    if !t.IsValid(checkedAt) {
      return Failure(ERR_CREATE);
    }
    r := Success(t);
  }

  // ---------------------------------------------------------------- properties

  /** json_encode followed by json_decode gives back the record. */
  ghost predicate EncodingRoundTrips(builtins: Builtins, jsonEncode: map<string, Value> -> string, m: map<string, Value>) {
    builtins.jsonDecode(jsonEncode(m)) == Arr(m)
  }

  /** A token create() signs is authentic whenever the HMAC is 64 characters long. */
  lemma CreatedTokenIsAuthentic(data: map<string, Value>, secret: string, builtins: Builtins,
                                jsonEncode: map<string, Value> -> string, issuedAt: int)
    requires |builtins.hmac(jsonEncode(StampedData(data, issuedAt)), secret)| == HMAC_SIZE
    ensures var raw := SignedMessage(data, secret, builtins, jsonEncode, issuedAt);
      TokenFormat.IsAuthentic(TokenFormat.Parse(raw, builtins.jsonDecode, true), secret, builtins.hmac)
  {
    var m := jsonEncode(StampedData(data, issuedAt));
    var tag := builtins.hmac(m, secret);
    var raw := tag + m;
    assert raw[..HMAC_SIZE] == tag;
    assert raw[HMAC_SIZE..] == m;
  }

  /** Whatever `issued` the caller supplies, the created token carries the time of creation. */
  lemma CreateOverridesIssued(data: map<string, Value>, secret: string, builtins: Builtins,
                              jsonEncode: map<string, Value> -> string, issuedAt: int)
    requires |builtins.hmac(jsonEncode(StampedData(data, issuedAt)), secret)| == HMAC_SIZE
    requires EncodingRoundTrips(builtins, jsonEncode, StampedData(data, issuedAt))
    ensures var st := TokenFormat.Parse(SignedMessage(data, secret, builtins, jsonEncode, issuedAt), builtins.jsonDecode, true);
      Field(st, "issued") == Int(issuedAt)
  {
    var m := jsonEncode(StampedData(data, issuedAt));
    var raw := builtins.hmac(m, secret) + m;
    assert raw[HMAC_SIZE..] == m;
  }

  /** With a good configuration, a 64-character HMAC and a faithful JSON encoding, create()
      succeeds exactly when the data holds a scalar (so non-null) id and the clock has not
      moved on by more than `expires` seconds between encoding and checking. */
  lemma CreateSucceedsIff(data: map<string, Value>, secret: string, expires: int, builtins: Builtins,
                          jsonEncode: map<string, Value> -> string, issuedAt: int, checkedAt: int)
    requires ConstructionError(secret, expires).None?
    requires |builtins.hmac(jsonEncode(StampedData(data, issuedAt)), secret)| == HMAC_SIZE
    requires EncodingRoundTrips(builtins, jsonEncode, StampedData(data, issuedAt))
    ensures CreateOutcome(data, secret, expires, builtins, jsonEncode, issuedAt, checkedAt).Success?
      <==> ("id" in data && IsScalar(data["id"]) && checkedAt - issuedAt <= expires)
  {
    var stamped := StampedData(data, issuedAt);
    var m := jsonEncode(stamped);
    var raw := builtins.hmac(m, secret) + m;
    assert raw[..HMAC_SIZE] == builtins.hmac(m, secret);
    assert raw[HMAC_SIZE..] == m;
    var st := TokenFormat.Parse(raw, builtins.jsonDecode, true);
    assert st.data == Some(Claims(stamped, true));
    RequiredFieldsAreIdAndIssued(st);
    assert Field(st, "id") == FieldValue(stamped, "id", true);
    assert Field(st, "issued") == Int(issuedAt);
    assert ("id" in stamped && IsScalar(stamped["id"])) <==> ("id" in data && IsScalar(data["id"]));
  }

  /** A record with a scalar id, created and checked at the same instant, gives a valid token. */
  lemma CreateAtOnceIsValid(data: map<string, Value>, secret: string, expires: int, builtins: Builtins,
                            jsonEncode: map<string, Value> -> string, now: int)
    requires ConstructionError(secret, expires).None?
    requires |builtins.hmac(jsonEncode(StampedData(data, now)), secret)| == HMAC_SIZE
    requires EncodingRoundTrips(builtins, jsonEncode, StampedData(data, now))
    requires "id" in data && IsScalar(data["id"])
    ensures CreateOutcome(data, secret, expires, builtins, jsonEncode, now, now).Success?
  {
    CreateSucceedsIff(data, secret, expires, builtins, jsonEncode, now, now);
  }
}
