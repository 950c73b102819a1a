/**
 * HarvardKeySecureToken: the older token class. It runs the same pipeline as
 * JsonIdentityToken except that _parse copies a present field value without checking
 * that it is scalar, and there is no factory.
 */
module HarvardKeySecureTokens {
  import opened Wrappers
  import opened Php
  import opened TokenFormat

  class HarvardKeySecureToken {
    const token: string
    const secret: string
    const expires: int
    const builtins: Builtins

    var hmac: Option<string>
    var msg: Option<string>
    var data: Option<map<string, Value>>

    function State(): TokenState
      reads this
    {
      TokenState(hmac, msg, data)
    }

    /** The part of the constructor after its two checks have passed (see `New`). */
    constructor (token: string, secret: string, expires: int, builtins: Builtins)
      requires ConstructionError(secret, expires).None?
      ensures this.token == token && this.secret == secret && this.expires == expires
      ensures this.builtins == builtins
      ensures State() == TokenFormat.Parse(token, builtins.jsonDecode, false)
    {
      this.token := token;
      this.secret := secret;
      this.expires := expires;
      this.builtins := builtins;
      hmac, msg, data := None, None, None;
      new;
      Parse();
    }

    /** _parse: split off the tag, decode the message and copy the five fields as they are. */
    method Parse()
      requires State() == UNPARSED
      modifies this
      ensures State() == TokenFormat.Parse(token, builtins.jsonDecode, false)
    {
      if !StrTruthy(token) || |token| < HMAC_SIZE {
        return;
      }
      hmac := Some(token[..HMAC_SIZE]);
      msg := Some(token[HMAC_SIZE..]);
      var decoded := builtins.jsonDecode(msg.value);
      var filled := FillData(Decoded(decoded), false);
      data := Some(filled);
    }

    /** isAuthentic: false without a tag; after the constructor's parse, true exactly when the
        token string's first 64 characters are the HMAC of the rest under the secret. */
    function IsAuthentic(): (r: bool)
      reads this
      ensures hmac.None? ==> !r
      ensures State() == TokenFormat.Parse(token, builtins.jsonDecode, false) ==>
        (r <==> CanParse(token) && builtins.hmac(token[HMAC_SIZE..], secret) == token[..HMAC_SIZE])
    {
      TokenFormat.IsAuthentic(State(), secret, builtins.hmac)
    }

    /** isExpired: never without an issued time, otherwise when more than `expires` seconds
        have passed since intval of it. */
    function IsExpired(now: int): (r: bool)
      reads this
      ensures GetIssued() == Null ==> !r
      ensures GetIssued() != Null ==> (r <==> now - Intval(GetIssued()) > expires)
    {
      TokenFormat.IsExpired(State(), expires, now)
    }

    /** isValid: authentic, with the required fields, and not expired at time `now`; a valid
        token has a tag, an id and an issued time. */
    function IsValid(now: int): (r: bool)
      reads this
      ensures r <==> IsAuthentic() && TokenFormat.HasRequiredFields(State()) && !IsExpired(now)
      ensures r ==> hmac.Some? && GetId() != Null && GetIssued() != Null
    {
      TokenFormat.IsValid(State(), secret, expires, builtins.hmac, now)
    }

    method HasRequiredFields() returns (has: bool)
      ensures has == TokenFormat.HasRequiredFields(State())
    {
      has := CheckRequiredFields(data);
    }

    method ValidationErrors(now: int) returns (errors: seq<string>)
      ensures errors == TokenFormat.ValidationErrors(State(), secret, expires, builtins.hmac, now)
      ensures errors == [] <==> IsValid(now)
    {
      var hasFields := HasRequiredFields();
      errors := CollectErrors(IsAuthentic(), hasFields, IsExpired(now));
    }

    /** The id claim: null when there are no claims; after the constructor's parse, the
        id claim of the token string. */
    function GetId(): (v: Value)
      reads this
      ensures data.None? ==> v == Null
      ensures State() == TokenFormat.Parse(token, builtins.jsonDecode, false) ==> v == ParsedField(token, builtins.jsonDecode, "id", false)
    {
      Field(State(), "id")
    }

    /** The issued claim: null when there are no claims; after the constructor's parse, the
        issued claim of the token string. */
    function GetIssued(): (v: Value)
      reads this
      ensures data.None? ==> v == Null
      ensures State() == TokenFormat.Parse(token, builtins.jsonDecode, false) ==> v == ParsedField(token, builtins.jsonDecode, "issued", false)
    {
      Field(State(), "issued")
    }

    /** The role claim: null when there are no claims; after the constructor's parse, the
        role claim of the token string. */
    function GetRole(): (v: Value)
      reads this
      ensures data.None? ==> v == Null
      ensures State() == TokenFormat.Parse(token, builtins.jsonDecode, false) ==> v == ParsedField(token, builtins.jsonDecode, "role", false)
    {
      Field(State(), "role")
    }

    /** The name claim: null when there are no claims; after the constructor's parse, the
        name claim of the token string. */
    function GetName(): (v: Value)
      reads this
      ensures data.None? ==> v == Null
      ensures State() == TokenFormat.Parse(token, builtins.jsonDecode, false) ==> v == ParsedField(token, builtins.jsonDecode, "name", false)
    {
      Field(State(), "name")
    }

    /** The email claim: null when there are no claims; after the constructor's parse, the
        email claim of the token string. */
    function GetEmail(): (v: Value)
      reads this
      ensures data.None? ==> v == Null
      ensures State() == TokenFormat.Parse(token, builtins.jsonDecode, false) ==> v == ParsedField(token, builtins.jsonDecode, "email", false)
    {
      Field(State(), "email")
    }
  }

  /** The constructor with its checks: a secret under 32 bytes or a negative expiry is an exception. */
  method New(token: string, secret: string, expires: int, builtins: Builtins) returns (r: Result<HarvardKeySecureToken, string>)
    ensures r.Failure? <==> ConstructionError(secret, expires).Some?
    ensures r.Failure? ==> r.error == ConstructionError(secret, expires).value
    ensures r.Success? ==>
              && fresh(r.value) && r.value.token == token && r.value.secret == secret
              && r.value.expires == expires && r.value.builtins == builtins
              && r.value.State() == TokenFormat.Parse(token, builtins.jsonDecode, false)
  {
    if |secret| < MIN_SECRET_SIZE {
      return Failure(ERR_SECRET);
    }
    if expires < 0 {
      return Failure(ERR_EXPIRES);
    }
    var t := new HarvardKeySecureToken(token, secret, expires, builtins);
    r := Success(t);
  }

  /** Without the scalar filter an array id counts as present: the older token accepts a
      message whose id is a JSON object, which the newer token reports as missing its fields. */
  lemma ArrayIdPassesOnlyTheOlderCheck(token: string, jsonDecode: string -> Value)
    requires |token| >= HMAC_SIZE
    requires jsonDecode(token[HMAC_SIZE..]) == Arr(map["id" := Arr(map[]), "issued" := Int(0)])
    ensures TokenFormat.HasRequiredFields(TokenFormat.Parse(token, jsonDecode, false))
    ensures !TokenFormat.HasRequiredFields(TokenFormat.Parse(token, jsonDecode, true))
  {
    var decoded := map["id" := Arr(map[]), "issued" := Int(0)];
    RequiredFieldsAreIdAndIssued(TokenFormat.Parse(token, jsonDecode, false));
    RequiredFieldsAreIdAndIssued(TokenFormat.Parse(token, jsonDecode, true));
    assert FieldValue(decoded, "id", true) == Null;
  }
}
