/**
 * The signed identity token shared by JsonIdentityToken and its older twin
 * HarvardKeySecureToken: the split of the raw string into a 64-character HMAC tag and
 * a JSON message, the reduction of the decoded message to a fixed five-key record, the
 * three checks (authentic, required fields present, expired) and the ordered list of
 * validation errors. The two classes differ only in whether a non-scalar value is kept
 * (`scalarOnly` is true for JsonIdentityToken).
 *
 * hash_hmac('sha256', msg, key) and json_decode(msg, true) are supplied as functions
 * (`Builtins`); json_decode gives Null for a message it cannot decode. time() is a
 * parameter `now`.
 */
module TokenFormat {
  import opened Wrappers
  import opened Php

  /** Length of the hex-encoded SHA-256 HMAC at the head of a token. */
  const HMAC_SIZE: nat := 64
  const MIN_SECRET_SIZE: nat := 32

  const FIELDS_REQUIRED: seq<string> := ["id", "issued"]
  const FIELDS_OPTIONAL: seq<string> := ["name", "email", "role"]
  /** array_merge of the optional and the required names: the order the parser fills them in. */
  const FIELDS: seq<string> := FIELDS_OPTIONAL + FIELDS_REQUIRED

  const ERR_SECRET := "Secret key must be a non-empty string at least 32 bytes (256 bits) in length"
  const ERR_EXPIRES := "Expiration must be a non-negative integer"
  const ERR_NOT_AUTHENTIC := "Token could not be authenticated"
  const ERR_MISSING_FIELDS := "Token missing required fields"
  const ERR_EXPIRED := "Token is expired"

  /** The PHP built-ins the token relies on: `hmac(msg, key)` is hash_hmac('sha256', msg, key)
      and `jsonDecode(msg)` is json_decode(msg, true). */
  datatype Builtins = Builtins(hmac: (string, string) -> string, jsonDecode: string -> Value)

  /** What parsing leaves in the `_hmac`, `_msg` and `_data` fields; None is PHP's null. */
  datatype TokenState = TokenState(hmac: Option<string>, msg: Option<string>, data: Option<map<string, Value>>)

  const UNPARSED := TokenState(None, None, None)

  /** The exception the constructor throws, if any: a secret under 32 bytes, then a negative expiry. */
  function ConstructionError(secret: string, expires: int): (r: Option<string>)
    ensures r.None? <==> |secret| >= MIN_SECRET_SIZE && expires >= 0
  {
    if |secret| < MIN_SECRET_SIZE then Some(ERR_SECRET)
    else if expires < 0 then Some(ERR_EXPIRES)
    else None
  }

  /** The parser goes on only when the token is truthy and at least HMAC_SIZE long. */
  predicate CanParse(token: string) {
    StrTruthy(token) && |token| >= HMAC_SIZE
  }

  /** What the parser looks keys up in: the decoded array, or an empty one when the message
      did not decode to an array. */
  function Decoded(v: Value): map<string, Value> {
    if v.Arr? then v.entries else map[]
  }

  /** The value one field gets: the decoded value when its key is present (and, for the
      scalar-only parser, the value is scalar), null otherwise. */
  function FieldValue(decoded: map<string, Value>, field: string, scalarOnly: bool): Value {
    if field in decoded && (!scalarOnly || IsScalar(decoded[field])) then decoded[field] else Null
  }

  function Claims(decoded: map<string, Value>, scalarOnly: bool): map<string, Value> {
    map f | f in FIELDS :: FieldValue(decoded, f, scalarOnly)
  }

  /** The state the constructor leaves behind. */
  function Parse(token: string, jsonDecode: string -> Value, scalarOnly: bool): TokenState {
    if !CanParse(token) then UNPARSED
    else
      var msg := token[HMAC_SIZE..];
      TokenState(Some(token[..HMAC_SIZE]), Some(msg), Some(Claims(Decoded(jsonDecode(msg)), scalarOnly)))
  }

  /** The value a freshly parsed token string holds for a field: null when the string is
      too short to parse, otherwise the field's value in the decoded message. */
  function ParsedField(token: string, jsonDecode: string -> Value, field: string, scalarOnly: bool): Value {
    if !CanParse(token) then Null else FieldValue(Decoded(jsonDecode(token[HMAC_SIZE..])), field, scalarOnly)
  }

  /** `$this->_data[$field]`: null when there is no data or no such key. */
  function Field(st: TokenState, field: string): Value {
    if st.data.Some? && field in st.data.value then st.data.value[field] else Null
  }

  /** A tag was parsed and equals the HMAC recomputed over the message (plain equality). */
  predicate IsAuthentic(st: TokenState, secret: string, hmac: (string, string) -> string) {
    st.hmac.Some? && hmac(st.msg.GetOr(""), secret) == st.hmac.value
  }

  predicate HasRequired(data: Option<map<string, Value>>) {
    data.Some? && forall f :: f in FIELDS_REQUIRED ==> f in data.value && data.value[f] != Null
  }

  predicate HasRequiredFields(st: TokenState) {
    HasRequired(st.data)
  }

  /** No issued time means never expired; otherwise expired when more than `expires`
      seconds have elapsed since intval(issued). */
  predicate IsExpired(st: TokenState, expires: int, now: int) {
    Field(st, "issued") != Null && now - Intval(Field(st, "issued")) > expires
  }

  predicate IsValid(st: TokenState, secret: string, expires: int, hmac: (string, string) -> string, now: int) {
    IsAuthentic(st, secret, hmac) && HasRequiredFields(st) && !IsExpired(st, expires, now)
  }

  function Errors(authentic: bool, hasFields: bool, expired: bool): seq<string> {
    (if !authentic then [ERR_NOT_AUTHENTIC] else [])
    + (if !hasFields then [ERR_MISSING_FIELDS] else [])
    + (if expired then [ERR_EXPIRED] else [])
  }

  function ValidationErrors(st: TokenState, secret: string, expires: int, hmac: (string, string) -> string, now: int): seq<string> {
    Errors(IsAuthentic(st, secret, hmac), HasRequiredFields(st), IsExpired(st, expires, now))
  }

  /** Position of a message in the fixed order authenticity, fields, expiry. */
  function ErrorRank(e: string): nat {
    if e == ERR_NOT_AUTHENTIC then 0 else if e == ERR_MISSING_FIELDS then 1 else 2
  }

  /** The loop of _parse: every field name, in order, set to its value or to null. */
  method FillData(decoded: map<string, Value>, scalarOnly: bool) returns (data: map<string, Value>)
    ensures data == Claims(decoded, scalarOnly)
  {
    data := map[];
    var i := 0;
    while i < |FIELDS|
      invariant 0 <= i <= |FIELDS|
      invariant data.Keys == set k | 0 <= k < i :: FIELDS[k]
      invariant forall k :: 0 <= k < i ==> data[FIELDS[k]] == FieldValue(decoded, FIELDS[k], scalarOnly)
    {
      var field := FIELDS[i];
      data := data[field := Null];
      if field in decoded && (!scalarOnly || IsScalar(decoded[field])) {
        data := data[field := decoded[field]];
      }
      i := i + 1;
    }
    assert data.Keys == Claims(decoded, scalarOnly).Keys by {
      forall f | f in FIELDS ensures f in data {
        var k :| 0 <= k < |FIELDS| && FIELDS[k] == f;
      }
    }
  }

  /** The loop of hasValidFields / hasRequiredFields: a conjunction folded over the required names. */
  method CheckRequiredFields(data: Option<map<string, Value>>) returns (has: bool)
    ensures has == HasRequired(data)
  {
    if data.None? {
      return false;
    }
    has := true;
    var i := 0;
    while i < |FIELDS_REQUIRED|
      invariant 0 <= i <= |FIELDS_REQUIRED|
      invariant has == forall k :: 0 <= k < i ==> FIELDS_REQUIRED[k] in data.value && data.value[FIELDS_REQUIRED[k]] != Null
    {
      var f := FIELDS_REQUIRED[i];
      has := has && f in data.value && data.value[f] != Null;
      i := i + 1;
    }
  }

  /** validationErrors: one message per failed check, appended in a fixed order. */
  method CollectErrors(authentic: bool, hasFields: bool, expired: bool) returns (errors: seq<string>)
    ensures errors == Errors(authentic, hasFields, expired)
    ensures errors == [] <==> authentic && hasFields && !expired
    ensures (ERR_NOT_AUTHENTIC in errors <==> !authentic) && (ERR_MISSING_FIELDS in errors <==> !hasFields)
    ensures ERR_EXPIRED in errors <==> expired
  {
    errors := [];
    if !authentic {
      errors := errors + [ERR_NOT_AUTHENTIC];
    }
    if !hasFields {
      errors := errors + [ERR_MISSING_FIELDS];
    }
    if expired {
      errors := errors + [ERR_EXPIRED];
    }
  }

  // ---------------------------------------------------------------- properties

  /** A token that is empty or shorter than the tag is not parsed at all: it is not
      authentic, lacks the required fields, is not expired, and its errors are exactly
      the authenticity and the fields messages. */
  lemma ShortTokenFails(token: string, jsonDecode: string -> Value, scalarOnly: bool,
                        secret: string, expires: int, hmac: (string, string) -> string, now: int)
    requires |token| < HMAC_SIZE
    ensures Parse(token, jsonDecode, scalarOnly) == UNPARSED
    ensures var st := Parse(token, jsonDecode, scalarOnly);
      && !IsAuthentic(st, secret, hmac) && !HasRequiredFields(st) && !IsExpired(st, expires, now)
      && ValidationErrors(st, secret, expires, hmac, now) == [ERR_NOT_AUTHENTIC, ERR_MISSING_FIELDS]
  {
  }

  /** Being truthy adds nothing to the length test: "" and "0" are both shorter than the tag. */
  lemma CanParseIffLongEnough(token: string)
    ensures CanParse(token) <==> |token| >= HMAC_SIZE
  {
  }

  /** Otherwise the tag is the first 64 characters, the message the rest, and together they are the token. */
  lemma ParseSplitsToken(token: string, jsonDecode: string -> Value, scalarOnly: bool)
    requires |token| >= HMAC_SIZE
    ensures var st := Parse(token, jsonDecode, scalarOnly);
      && st.hmac.Some? && st.msg.Some? && st.data.Some?
      && |st.hmac.value| == HMAC_SIZE
      && st.hmac.value + st.msg.value == token
  {
    var st := Parse(token, jsonDecode, scalarOnly);
    assert token[..HMAC_SIZE] + token[HMAC_SIZE..] == token;
  }

  /** After parsing, the data has exactly the five field names as keys, whatever the message. */
  lemma ClaimsHaveFiveKeys(decoded: map<string, Value>, scalarOnly: bool)
    ensures Claims(decoded, scalarOnly).Keys == {"name", "email", "role", "id", "issued"}
  {
    var keys := Claims(decoded, scalarOnly).Keys;
    assert FIELDS == ["name", "email", "role", "id", "issued"];
    forall f | f in {"name", "email", "role", "id", "issued"} ensures f in keys {
      assert f in FIELDS;
    }
  }

  /** The scalar-only parser: a field holds the decoded value when it is present and scalar,
      and null when it is absent or holds an array. */
  lemma ScalarClaimsValues(decoded: map<string, Value>, field: string)
    requires field in FIELDS
    ensures field in Claims(decoded, true)
    ensures var v := Claims(decoded, true)[field];
      && (field in decoded && IsScalar(decoded[field]) ==> v == decoded[field])
      && (field !in decoded || !IsScalar(decoded[field]) ==> v == Null)
      && (v == Null || IsScalar(v))
  {
  }

  /** The unfiltered parser: a present value is copied as it is, an absent one becomes null. */
  lemma UnfilteredClaimsValues(decoded: map<string, Value>, field: string)
    requires field in FIELDS
    ensures field in Claims(decoded, false)
    ensures Claims(decoded, false)[field] == if field in decoded then decoded[field] else Null
  {
  }

  /** A message that does not decode gives a record whose five fields are all null. */
  lemma UndecodableMessageGivesNullData(token: string, jsonDecode: string -> Value, scalarOnly: bool)
    requires |token| >= HMAC_SIZE && jsonDecode(token[HMAC_SIZE..]) == Null
    ensures var st := Parse(token, jsonDecode, scalarOnly);
      st.data.Some? && forall f :: f in FIELDS ==> f in st.data.value && st.data.value[f] == Null
  {
  }

  /** The two parsers agree on any message whose fields are all scalar or absent. */
  lemma ParsersAgreeOnScalarFields(decoded: map<string, Value>)
    requires forall f :: f in FIELDS && f in decoded ==> IsScalar(decoded[f])
    ensures Claims(decoded, true) == Claims(decoded, false)
  {
  }

  /** The required-fields check: data exists and both id and issued are non-null. */
  lemma RequiredFieldsAreIdAndIssued(st: TokenState)
    ensures HasRequiredFields(st) <==> st.data.Some? && Field(st, "id") != Null && Field(st, "issued") != Null
  {
    if st.data.Some? && Field(st, "id") != Null && Field(st, "issued") != Null {
      forall f | f in FIELDS_REQUIRED ensures f in st.data.value && st.data.value[f] != Null {
        assert f == "id" || f == "issued";
      }
    }
    if HasRequiredFields(st) {
      assert "id" in FIELDS_REQUIRED && "issued" in FIELDS_REQUIRED;
    }
  }

  /** The expiry boundary: issued exactly `expires` seconds ago is still fresh, one second more is expired. */
  lemma ExpiryBoundary(st: TokenState, expires: int, now: int)
    requires st.data.Some? && "issued" in st.data.value
    ensures st.data.value["issued"] == Int(now - expires) ==> !IsExpired(st, expires, now)
    ensures st.data.value["issued"] == Int(now - expires - 1) ==> IsExpired(st, expires, now)
  {
  }

  /** A token without an issued time never expires; with one it expires exactly when too much time has passed. */
  lemma ExpiredIff(st: TokenState, expires: int, now: int)
    ensures Field(st, "issued") == Null ==> !IsExpired(st, expires, now)
    ensures Field(st, "issued") != Null ==> (IsExpired(st, expires, now) <==> now - Intval(Field(st, "issued")) > expires)
  {
  }

  /** Valid exactly when there is nothing to report. */
  lemma ValidIffNoErrors(st: TokenState, secret: string, expires: int, hmac: (string, string) -> string, now: int)
    ensures IsValid(st, secret, expires, hmac, now) <==> ValidationErrors(st, secret, expires, hmac, now) == []
  {
  }

  /** The errors follow the fixed order authenticity, fields, expiry, each at most once,
      and each message is there exactly when its check fails. */
  lemma {:induction false} ErrorsInFixedOrder(authentic: bool, hasFields: bool, expired: bool)
    ensures var errs := Errors(authentic, hasFields, expired);
      && |errs| <= 3
      && (forall i, j :: 0 <= i < j < |errs| ==> ErrorRank(errs[i]) < ErrorRank(errs[j]))
      && (ERR_NOT_AUTHENTIC in errs <==> !authentic)
      && (ERR_MISSING_FIELDS in errs <==> !hasFields)
      && (ERR_EXPIRED in errs <==> expired)
  {
    var errs := Errors(authentic, hasFields, expired);
    assert ErrorRank(ERR_NOT_AUTHENTIC) == 0 && ErrorRank(ERR_MISSING_FIELDS) == 1 && ErrorRank(ERR_EXPIRED) == 2;
  }
}
