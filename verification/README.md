# HarvardKey Omeka plugin: a Dafny model

The HarvardKey plugin lets users log in to an Omeka site with Harvard Key. The
Harvard Key auth service sets a signed cookie. The cookie holds a 64-character
HMAC-SHA256 tag followed by a JSON message with the claims `id`, `issued`, `name`,
`email` and `role`. The login action then works in these steps:

- it turns the cookie into an identity token (`JsonIdentityToken`);
- it checks that the token is authentic, complete and unexpired;
- it applies an optional email whitelist;
- it finds or inserts a `harvard_key_users` row for the Harvard Key id;
- it links that row to an Omeka account, which is one of: the account it already
  reaches, an account with the token's email (reactivated), or a new account with the
  configured role and an unusable password;
- it answers with a `Zend_Auth_Result`.

The rest of the plugin covers four more areas:

- A front-controller plugin (`Protect`) sends anonymous users to the login page,
  except for five whitelisted routes.
- The auth controller builds the service URL, with the return address
  percent-encoded as section 2.1 of RFC 3986 describes. It also keeps a redirect
  counter so that it does not loop.
- The records controller lists the link rows with their accounts' emails, sorted by a
  column.
- The records controller also deletes every account the plugin created, together with
  its link rows.

The model has one module per source file, plus shared modules:

- `Php`: the PHP values and conversions the code relies on, including PHP 8's loose
  `==`, which compares two numeric strings by value.
- `TokenFormat`: the token format that both token classes share.
- `Directory`: the two tables and their invariant, `TablesValid`.
- `UrlEncoding`: `rawurlencode`.
- `Reconciliation`: the adapter's procedure as functions of the tables before the
  login attempt.

Code that changes state in place is modelled imperatively:
- The tokens are classes whose constructor parses the cookie.
- `HarvardKeyUser` is an active record whose methods save through a `Db` object.
- The `AuthAdapter`, the redirect counter and the records actions are methods.

Each of these methods is proved equal to a specification function. The properties
are then lemmas about those functions.

The following are parameters of the model:
- the PHP built-ins: `hash_hmac`, `json_decode`, `json_encode`, `strnatcmp` and
  `http_build_query`;
- the clock: `time()`;
- whether each database write succeeds;
- the stored timestamp.

Three behaviours of the code shape the model:
- **Roles.** `_getOmekaRole` grants any role that `get_user_roles()` knows, `super`
  included (see `AnyKnownRoleIsGranted`).
- **Unset settings.** The `secret_key` setting and the `harvardkey_emails` option are
  passed to constructor parameters declared `string`. When either is unset, PHP passes
  null and raises a TypeError (see `BadConfigurationThrows`). The plugin's option list
  is empty (`HarvardKeyPlugin.php:30-31`), so its configuration hook stores no option,
  `harvardkey_emails` included.
- **Missing methods.** The adapter calls methods that the record and token classes
  do not define (see Findings). The model uses the methods the classes do have:
  - `isLinkedToUser` → `isLinked`
  - `linkExistingUser` → `linkToExisting`
  - `generateUsername` → `getUsername`
  - `linkNewUser` → `linkToNew`

  For `hasEmail`, the model assumes "the email claim is neither null nor the empty
  string".

## Model

| member | source | states |
|---|---|---|
| Php.IntvalOfIntToString | controllers/AuthController.php:106-112 | intval reads every integer back from its decimal spelling |
| Php.IntToStringIsNumeric | adapters/AuthAdapter.php:93 | the decimal spelling of every integer is a numeric string of integer form |
| Php.LooseEqualsString | adapters/AuthAdapter.php:93 | every string loosely equals itself; null equals only ""; an array equals no string; an integer equals only numeric strings of its value; a string and a string that are not both numeric are equal only when identical |
| Php.LooseEqualsOwnSpelling | adapters/AuthAdapter.php:93 | an integer loosely equals its decimal spelling, and every string equals itself |
| Php.DigitStringsCompareByValue | adapters/AuthAdapter.php:93 | two runs of digits are loosely equal exactly when they spell the same number |
| Php.LeadingZerosCompareEqual | adapters/AuthAdapter.php:93 | "007" loosely equals "7" |
| Php.LeadingSpaceIgnored | adapters/AuthAdapter.php:93 | a leading space changes neither whether a string is numeric nor its value |
| Php.SpacedDigitsCompareByValue | adapters/AuthAdapter.php:93 | an integer loosely equals a space followed by digits exactly when the digits spell it |
| Php.TrailingLetterComparesAsString | adapters/AuthAdapter.php:93 | "7a" is not numeric and does not loosely equal "7" |
| Php.IntegerNumericCharacters | adapters/AuthAdapter.php:93 | a numeric string of integer form holds only whitespace, signs and digits |
| Php.IntToStringInjective | models/HarvardKeyUser.php:105-108 | distinct integers have distinct decimal spellings |
| TokenFormat.ConstructionError | libraries/HarvardKey/JsonIdentityToken.php:61-66 | the constructor throws exactly when the secret is under 32 bytes or the expiry is negative, the secret check first |
| TokenFormat.FillData | libraries/HarvardKey/JsonIdentityToken.php:113-124 | the field loop gives each of the five field names its decoded value, or null when the value is absent or (for the scalar-only parser) not scalar |
| TokenFormat.CheckRequiredFields | libraries/HarvardKey/JsonIdentityToken.php:165-175 | the fold over the required names is true exactly when data exists and every required field is present and non-null |
| TokenFormat.CollectErrors | libraries/HarvardKey/JsonIdentityToken.php:192-205 | each message is present exactly when its check fails; no messages exactly when all checks pass |
| TokenFormat.ShortTokenFails | libraries/HarvardKey/JsonIdentityToken.php:98-101 | a token shorter than the tag is not parsed: not authentic, missing fields, not expired, and exactly the first two errors |
| TokenFormat.CanParseIffLongEnough | libraries/HarvardKey/JsonIdentityToken.php:98 | the truthiness test adds nothing to the length test |
| TokenFormat.ParseSplitsToken | libraries/HarvardKey/JsonIdentityToken.php:103-104 | otherwise the tag is the first 64 characters and tag plus message is the token |
| TokenFormat.ClaimsHaveFiveKeys | libraries/HarvardKey/JsonIdentityToken.php:113-116 | the parsed data has exactly the five field names as keys, whatever the message |
| TokenFormat.ScalarClaimsValues | libraries/HarvardKey/JsonIdentityToken.php:117-123 | a field holds the decoded value when present and scalar, else null; every value is null or scalar |
| TokenFormat.UnfilteredClaimsValues | libraries/HarvardKey/HarvardKeySecureToken.php:105-111 | the older parser copies a present value as it is and nulls an absent one |
| TokenFormat.UndecodableMessageGivesNullData | libraries/HarvardKey/JsonIdentityToken.php:107-111 | a message that does not decode gives data whose five fields are all null |
| TokenFormat.ParsersAgreeOnScalarFields | libraries/HarvardKey/HarvardKeySecureToken.php:105-111 | the two parsers agree on any message whose fields are scalar or absent |
| TokenFormat.RequiredFieldsAreIdAndIssued | libraries/HarvardKey/JsonIdentityToken.php:40 | the required-fields check is: data exists and both id and issued are non-null |
| TokenFormat.ExpiryBoundary | libraries/HarvardKey/JsonIdentityToken.php:154-157 | issued exactly `expires` seconds ago is fresh; one second earlier is expired |
| TokenFormat.ExpiredIff | libraries/HarvardKey/JsonIdentityToken.php:149-158 | no issued time means never expired; otherwise expired exactly when now minus intval(issued) exceeds expires |
| TokenFormat.ValidIffNoErrors | libraries/HarvardKey/JsonIdentityToken.php:182-205 | a token is valid exactly when validationErrors is empty |
| TokenFormat.ErrorsInFixedOrder | libraries/HarvardKey/JsonIdentityToken.php:192-205 | at most three errors, in the order authenticity, fields, expiry, each present exactly when its check fails |
| JsonIdentityTokens.JsonIdentityToken.constructor | libraries/HarvardKey/JsonIdentityToken.php:55-70 | after the checks the fields hold the arguments and the state is the parse of the token |
| JsonIdentityTokens.JsonIdentityToken.Parse | libraries/HarvardKey/JsonIdentityToken.php:96-128 | _parse leaves exactly the scalar-only parse of the token in the three fields |
| JsonIdentityTokens.JsonIdentityToken.IsAuthentic | libraries/HarvardKey/JsonIdentityToken.php:135-142 | false without a tag; after the parse, true exactly when the first 64 characters of the token string are the HMAC of the rest under the secret |
| JsonIdentityTokens.JsonIdentityToken.IsExpired | libraries/HarvardKey/JsonIdentityToken.php:149-158 | never expired without an issued claim; otherwise expired exactly when more than `expires` seconds have passed since intval of it |
| JsonIdentityTokens.JsonIdentityToken.IsValid | libraries/HarvardKey/JsonIdentityToken.php:182-185 | authentic, with the required fields and unexpired; a valid token has a tag, an id and an issued time |
| JsonIdentityTokens.JsonIdentityToken.GetToken | libraries/HarvardKey/JsonIdentityToken.php:212-215 | the raw token string |
| JsonIdentityTokens.JsonIdentityToken.GetId | libraries/HarvardKey/JsonIdentityToken.php:222-225 | null without claims; after the parse, the id claim of the token string, which is null or a scalar |
| JsonIdentityTokens.JsonIdentityToken.GetIssued | libraries/HarvardKey/JsonIdentityToken.php:232-235 | null without claims; after the parse, the issued claim of the token string, which is null or a scalar |
| JsonIdentityTokens.JsonIdentityToken.GetRole | libraries/HarvardKey/JsonIdentityToken.php:242-245 | null without claims; after the parse, the role claim of the token string, which is null or a scalar |
| JsonIdentityTokens.JsonIdentityToken.GetName | libraries/HarvardKey/JsonIdentityToken.php:252-255 | null without claims; after the parse, the name claim of the token string, which is null or a scalar |
| JsonIdentityTokens.JsonIdentityToken.GetEmail | libraries/HarvardKey/JsonIdentityToken.php:262-265 | null without claims; after the parse, the email claim of the token string, which is null or a scalar |
| JsonIdentityTokens.JsonIdentityToken.HasValidFields | libraries/HarvardKey/JsonIdentityToken.php:165-175 | the answer is the required-fields predicate of the current state |
| JsonIdentityTokens.JsonIdentityToken.ValidationErrors | libraries/HarvardKey/JsonIdentityToken.php:192-205 | the messages of the current state, empty exactly when isValid |
| JsonIdentityTokens.New | libraries/HarvardKey/JsonIdentityToken.php:55-70 | throws the secret or the expiry message exactly when the configuration is bad, else a fresh parsed token |
| JsonIdentityTokens.Create | libraries/HarvardKey/JsonIdentityToken.php:81-89 | create signs the stamped record, and throws the constructor's error, or "Error creating token!" when the new token is invalid |
| JsonIdentityTokens.CreatedTokenIsAuthentic | libraries/HarvardKey/JsonIdentityToken.php:82-84 | a token create signs is authentic when the HMAC is 64 characters |
| JsonIdentityTokens.CreateOverridesIssued | libraries/HarvardKey/JsonIdentityToken.php:82 | whatever issued the caller passes, the token carries the creation time |
| JsonIdentityTokens.CreateSucceedsIff | libraries/HarvardKey/JsonIdentityToken.php:81-89 | with good configuration and faithful JSON, create succeeds exactly when the data has a scalar id and at most `expires` seconds pass before the check |
| JsonIdentityTokens.CreateAtOnceIsValid | libraries/HarvardKey/JsonIdentityToken.php:81-89 | a record with an id, created and checked at one instant, gives a valid token |
| HarvardKeySecureTokens.HarvardKeySecureToken.constructor | libraries/HarvardKey/HarvardKeySecureToken.php:65-80 | after the checks the state is the unfiltered parse of the token |
| HarvardKeySecureTokens.HarvardKeySecureToken.Parse | libraries/HarvardKey/HarvardKeySecureToken.php:87-115 | _parse leaves the unfiltered parse of the token in the three fields |
| HarvardKeySecureTokens.HarvardKeySecureToken.IsAuthentic | libraries/HarvardKey/HarvardKeySecureToken.php:122-129 | false without a tag; after the parse, true exactly when the first 64 characters of the token string are the HMAC of the rest under the secret |
| HarvardKeySecureTokens.HarvardKeySecureToken.IsExpired | libraries/HarvardKey/HarvardKeySecureToken.php:136-145 | never expired without an issued claim; otherwise expired exactly when more than `expires` seconds have passed since intval of it |
| HarvardKeySecureTokens.HarvardKeySecureToken.IsValid | libraries/HarvardKey/HarvardKeySecureToken.php:169-172 | authentic, with the required fields and unexpired; a valid token has a tag, an id and an issued time |
| HarvardKeySecureTokens.HarvardKeySecureToken.GetId | libraries/HarvardKey/HarvardKeySecureToken.php:199-202 | null without claims; after the parse, the id claim of the token string, unfiltered |
| HarvardKeySecureTokens.HarvardKeySecureToken.GetIssued | libraries/HarvardKey/HarvardKeySecureToken.php:209-212 | null without claims; after the parse, the issued claim of the token string, unfiltered |
| HarvardKeySecureTokens.HarvardKeySecureToken.GetRole | libraries/HarvardKey/HarvardKeySecureToken.php:219-222 | null without claims; after the parse, the role claim of the token string, unfiltered |
| HarvardKeySecureTokens.HarvardKeySecureToken.GetName | libraries/HarvardKey/HarvardKeySecureToken.php:229-232 | null without claims; after the parse, the name claim of the token string, unfiltered |
| HarvardKeySecureTokens.HarvardKeySecureToken.GetEmail | libraries/HarvardKey/HarvardKeySecureToken.php:239-242 | null without claims; after the parse, the email claim of the token string, unfiltered |
| HarvardKeySecureTokens.HarvardKeySecureToken.HasRequiredFields | libraries/HarvardKey/HarvardKeySecureToken.php:152-162 | the answer is the required-fields predicate of the current state |
| HarvardKeySecureTokens.HarvardKeySecureToken.ValidationErrors | libraries/HarvardKey/HarvardKeySecureToken.php:179-192 | the messages of the current state, empty exactly when isValid |
| HarvardKeySecureTokens.New | libraries/HarvardKey/HarvardKeySecureToken.php:65-80 | throws exactly when the configuration is bad, else a fresh parsed token |
| HarvardKeySecureTokens.ArrayIdPassesOnlyTheOlderCheck | libraries/HarvardKey/HarvardKeySecureToken.php:105-111 | an id that is a JSON object counts as present for the older token and as missing for the newer one |
| Directory.FirstIndex | models/HarvardKeyUser.php:137-140 | the index of the first element satisfying the condition, or none when no element does |
| Directory.LinkByHarvardKeyId | adapters/AuthAdapter.php:225-229 | the row found holds the key and is stored; none exactly when no row holds the key |
| Directory.LinkByOmekaUserId | models/HarvardKeyUser.php:126-129 | the row found has the account id; none exactly when no row has it |
| Directory.UserById | adapters/AuthAdapter.php:237-241 | the account found has the id; none exactly when no account has it |
| Directory.UserByEmail | adapters/AuthAdapter.php:261-265 | the account found has the email; none exactly when no account has it |
| Directory.InsertLink | HarvardKeyPlugin.php:142-151 | the insert succeeds exactly when the write succeeds and no row has the key (UNIQUE); the row gets the next id and is appended |
| Directory.ReplaceLink | models/HarvardKeyUser.php:64 | an update by id keeps every position and its id; rows with other ids stay in place, every row left with the id is the new row, and the new row is stored exactly when some row had its id |
| Directory.UpdateLink | HarvardKeyPlugin.php:149 | an update succeeds exactly when the write succeeds and no other row holds the key |
| Directory.ReplaceUser | adapters/AuthAdapter.php:143-144 | saving an account keeps every position and its id; accounts with other ids stay in place, every account left with the id is the saved one, and it is stored exactly when some account had its id |
| Directory.InsertLinkKeepsValid | HarvardKeyPlugin.php:142-151 | a successful link insert keeps the table invariant |
| Directory.UpdateLinkKeepsValid | HarvardKeyPlugin.php:149 | a successful link update keeps the table invariant |
| Directory.InsertUserKeepsValid | adapters/AuthAdapter.php:195 | an account insert keeps the invariant and returns a positive id |
| Directory.UpdateUserKeepsValid | adapters/AuthAdapter.php:143-144 | an account update that keeps the id keeps the invariant |
| Directory.LinkLookupFindsRow | adapters/AuthAdapter.php:225-229 | in valid tables the lookup by key finds each stored row |
| Directory.UserLookupFindsRow | adapters/AuthAdapter.php:237-241 | in valid tables the lookup by id finds each stored account |
| Directory.UpdateOfStoredRecord | models/HarvardKeyUser.php:60-65 | updating a stored row under its own id and key succeeds exactly when the write does, and the lookup then finds the new row |
| Directory.UpdateOfStoredUser | adapters/AuthAdapter.php:143-144 | saving a stored account keeps the invariant and the lookup finds the saved account |
| Directory.UpdateUserKeepsIds | adapters/AuthAdapter.php:143-144 | saving an account keeps every row's id |
| Directory.Db.constructor | models/HarvardKeyUser.php:126-140 | the database object holds the given tables |
| Directory.Db.InsertLinkRow | models/HarvardKeyUser.php:45-49 | the new contents and the inserted row are those of InsertLink |
| Directory.Db.UpdateLinkRow | models/HarvardKeyUser.php:60-65 | the new contents and the success flag are those of UpdateLink |
| Directory.Db.InsertUserRow | adapters/AuthAdapter.php:195 | the new contents and the new id are those of InsertUser |
| Directory.Db.UpdateUserRow | adapters/AuthAdapter.php:143-144 | the new contents are those of UpdateUser |
| HarvardKeyUsers.IdValue | models/HarvardKeyUser.php:13 | a nullable id column is null or an integer |
| HarvardKeyUsers.Username | models/HarvardKeyUser.php:105-108 | the username is "HarvardKeyUser" followed by the id's string form |
| HarvardKeyUsers.UsernamesDistinct | models/HarvardKeyUser.php:105-108 | rows with distinct ids get distinct usernames |
| HarvardKeyUsers.Persist | models/HarvardKeyUser.php:33-36 | saving a new record appends it with the next id and the insert stamp and advances the id counter; saving a stored record replaces the rows with its id and changes nothing else; either fails exactly when the write fails or another row holds its Harvard Key id |
| HarvardKeyUsers.PersistKeepsValid | models/HarvardKeyUser.php:45-65 | every successful save keeps the table invariant |
| HarvardKeyUsers.HarvardKeyUser.constructor | models/HarvardKeyUser.php:8-28 | a new record has every column null |
| HarvardKeyUsers.HarvardKeyUser.FromRow | models/HarvardKeyUser.php:137-140 | a loaded record holds the row's columns |
| HarvardKeyUsers.HarvardKeyUser.IsLinked | models/HarvardKeyUser.php:94-97 | the (bool) cast of the account id is true exactly when the id is set and not 0 |
| HarvardKeyUsers.HarvardKeyUser.GetUsername | models/HarvardKeyUser.php:105-108 | the username of the record's id |
| HarvardKeyUsers.HarvardKeyUser.Save | models/HarvardKeyUser.php:48 | the record and the tables become the result of Persist; on failure nothing changes |
| HarvardKeyUsers.HarvardKeyUser.SaveIdentity | models/HarvardKeyUser.php:45-49 | the key is set and saved; on a failed save the key stays set and the tables are unchanged |
| HarvardKeyUsers.HarvardKeyUser.LinkTo | models/HarvardKeyUser.php:60-65 | the account id and the created flag are set and saved; the key is kept |
| HarvardKeyUsers.HarvardKeyUser.LinkToNew | models/HarvardKeyUser.php:73-76 | linkTo with created set to true |
| HarvardKeyUsers.HarvardKeyUser.LinkToExisting | models/HarvardKeyUser.php:84-87 | linkTo with created set to false |
| HarvardKeyUsers.FindByHarvardKeyId | models/HarvardKeyUser.php:137-140 | a fresh record holding the row with the key, or none exactly when no row has it |
| HarvardKeyUsers.FindByOmekaUserId | models/HarvardKeyUser.php:126-129 | a fresh record holding the row with the account id, or none exactly when no row has it |
| HarvardKeyUsers.FoundRecordIsTheRow | HarvardKeyPlugin.php:149 | in valid tables a key identifies a single row, which the lookup returns |
| Reconciliation.SplitLines | adapters/AuthAdapter.php:92 | the split gives at least one piece, and no piece holds a line break |
| Reconciliation.SplitLinesPrefix | adapters/AuthAdapter.php:92 | text without breaks joins the first piece of what follows it |
| Reconciliation.SplitJoinLines | adapters/AuthAdapter.php:92 | splitting lines joined with "\n" gives the lines back |
| Reconciliation.InArray | adapters/AuthAdapter.php:93 | in_array is true exactly when some element loosely equals the value |
| Reconciliation.IsEmailAllowed | adapters/AuthAdapter.php:87-94 | an empty whitelist admits everyone; otherwise the email must loosely equal one of its lines |
| Reconciliation.WhitelistAdmitsExactlyListed | adapters/AuthAdapter.php:87-94 | a string email is admitted exactly when it is one of the lines or, being a numeric string, has the value of a numeric line |
| Reconciliation.AddressesCompareExactly | adapters/AuthAdapter.php:87-94 | an email containing "@" is admitted exactly when it is one of the lines |
| Reconciliation.TrailingBreakAdmitsMissingEmail | adapters/AuthAdapter.php:92-93 | a whitelist ending in a line break admits a token without an email, because null loosely equals the empty last line |
| Reconciliation.OmekaRole | adapters/AuthAdapter.php:212-217 | the configured role when it is a known role, else the guest role |
| Reconciliation.AnyKnownRoleIsGranted | adapters/AuthAdapter.php:216 | a configured "super" role that is known is granted to new accounts |
| Reconciliation.NewAccount | adapters/AuthAdapter.php:175-190 | the new account: the generated username, the name or else the username, the email or else "", the role, active, the unusable password |
| Reconciliation.HasEmail | adapters/AuthAdapter.php:136 | a string email is present exactly when it is not empty; null is absent; an absent email is falsy |
| Reconciliation.Resolve | adapters/AuthAdapter.php:122-160 | a link that still reaches its account is returned unchanged; any returned record keeps its row id and key and points to a non-zero account id |
| Reconciliation.Reconcile | adapters/AuthAdapter.php:101-163 | a failed find-or-insert aborts with the tables unchanged; a returned record holds the token's key and a non-zero account id |
| Reconciliation.AccountVerdict | adapters/AuthAdapter.php:66-78 | the identity is the record's account id exactly when that account exists; success exactly when it is active, and success exactly when there are no messages |
| Reconciliation.Authenticate | adapters/AuthAdapter.php:45-79 | FAILURE_CREDENTIAL_INVALID exactly on an invalid token; success needs a valid token, an admitted email and an identity; the tables change only past both gates |
| Reconciliation.FindOrCreateLinkFacts | adapters/AuthAdapter.php:105-120 | the row for the key is loaded when stored, else a new unlinked row is appended exactly when the insert succeeds; accounts are untouched |
| Reconciliation.AfterSaveFacts | models/HarvardKeyUser.php:60-65 | saving a stored record keeps the invariant, the ids and keys; it stores the record when the write succeeds and changes nothing otherwise |
| Reconciliation.CreateAccountFacts | adapters/AuthAdapter.php:170-205 | account creation succeeds exactly when the insert does, appends the new account with the next id and links the record to it as created |
| Reconciliation.LinkByEmailFacts | adapters/AuthAdapter.php:136-149 | linking by email marks the record not created, reactivates that account, adds no account, and the record then reaches it |
| Reconciliation.ResolveFacts | adapters/AuthAdapter.php:122-161 | resolving a stored record keeps the invariant and the rows, and a returned record reaches an existing account |
| Reconciliation.ReconcileFacts | adapters/AuthAdapter.php:101-162 | _createOrUpdateUser keeps the invariant, adds at most one link row and only for a new key, keeps the ids and keys of existing rows, and a returned record reaches an account |
| Reconciliation.ReconcileKeepsValid | adapters/AuthAdapter.php:101-162 | _createOrUpdateUser keeps the table invariant |
| Reconciliation.GatesTouchNothing | adapters/AuthAdapter.php:50-59 | an invalid token or an email outside the whitelist gives its failure result and leaves the tables unchanged |
| Reconciliation.ReachableLinkIsReused | adapters/AuthAdapter.php:122-133 | a stored row that still reaches an account is returned as it is, with nothing written |
| Reconciliation.EmailMatchTakesPrecedence | adapters/AuthAdapter.php:136-149 | with no account reached and an account with the token's email, that account is linked and reactivated and none is created |
| Reconciliation.OtherwiseAccountIsCreated | adapters/AuthAdapter.php:151-159 | with no account reached and none with the email, a new account is created and linked exactly when the insert succeeds |
| Reconciliation.NoMissingAccountVerdict | adapters/AuthAdapter.php:45-79 | the result has no identity exactly when the token is invalid, the email is refused or reconciliation fails |
| Reconciliation.LinkedVerdictFollowsAccount | adapters/AuthAdapter.php:66-78 | once a link record is returned, its account exists and is the identity; success exactly when it is active, otherwise FAILURE with the inactive-account message |
| Reconciliation.InactiveReusedAccountFails | adapters/AuthAdapter.php:72-75 | a reused link to an inactive account fails with that account's id and the inactive message, writing nothing |
| Reconciliation.InactivityOnlyOnReuse | adapters/AuthAdapter.php:122-160 | on valid tables an inactive-account failure comes only from a reused link with nothing written, since linking by email reactivates and a created account is active |
| Reconciliation.SecondAttemptChangesNothing | adapters/AuthAdapter.php:122-133 | once reconciled (with the link update stored), a repeated reconciliation reuses the record and writes nothing |
| Reconciliation.RepeatedLoginAnswersAlike | adapters/AuthAdapter.php:45-79 | a successful login repeated on the tables it left gives the same result and tables |
| AuthAdapters.AuthAdapter.constructor | adapters/AuthAdapter.php:30-35 | the adapter keeps the database, the token and the whitelist |
| AuthAdapters.AuthAdapter.CreateOmekaUser | adapters/AuthAdapter.php:170-205 | the tables and the record become those of CreateAccount; the new id exactly when it links |
| AuthAdapters.AuthAdapter.FindOrCreateRecord | adapters/AuthAdapter.php:105-120 | the record and tables of FindOrCreateLink; none exactly when the insert fails |
| AuthAdapters.AuthAdapter.LinkEmailAccount | adapters/AuthAdapter.php:140-158 | the tables and record of LinkByEmail |
| AuthAdapters.AuthAdapter.ResolveRecord | adapters/AuthAdapter.php:122-161 | the tables and record of Resolve |
| AuthAdapters.AuthAdapter.CreateOrUpdateUser | adapters/AuthAdapter.php:101-162 | the tables and record of Reconcile; false exactly when it aborts |
| AuthAdapters.AuthAdapter.Authenticate | adapters/AuthAdapter.php:45-79 | the result and the tables of Reconciliation.Authenticate on the token's validity and claims |
| AsWrittenAdapter.AsWrittenNobodyLogsIn | adapters/AuthAdapter.php:124 | as written, no attempt ever succeeds: each one fails or throws |
| AsWrittenAdapter.AuthenticateAsWritten | adapters/AuthAdapter.php:45-79 | as written, the attempt throws exactly when both gates pass and the link record is found or inserted, keeping that insert; otherwise it answers without an identity and writes nothing |
| AsWrittenAdapter.AsWrittenAgreesBeforeTheCall | adapters/AuthAdapter.php:45-66 | where the written adapter answers, it answers as the corrected one does |
| AsWrittenAdapter.FirstLoginThrowsAsWritten | adapters/AuthAdapter.php:124 | a first login on an empty site throws as written and succeeds as account 1 once corrected |
| Records.PreDispatch | controllers/RecordsController.php:21-27 | only a super user passes; anyone else gets the 403 message |
| Records.Filter | controllers/RecordsController.php:83-85 | keeps exactly the elements that satisfy the condition |
| Records.FilterKeepsIncreasing | controllers/RecordsController.php:82-85 | filtering keeps increasing ids increasing |
| Records.FilterKeepsDistinct | controllers/RecordsController.php:54-59 | filtering keeps distinct keys distinct |
| Records.MergeOptions | controllers/RecordsController.php:70-75 | the caller's options override the defaults key by key, and both keys are always present |
| Records.DefaultOptions | controllers/RecordsController.php:70 | by default the listing sorts by email and keeps every row |
| Records.UserIndex | controllers/RecordsController.php:112-120 | the index has exactly the account ids, each mapped to an account with that id |
| Records.UserIndexAgreesWithLookup | controllers/RecordsController.php:112-120 | in valid tables the index agrees with the lookup by id |
| Records.RecordOf | controllers/RecordsController.php:86-98 | a record copies the link's columns and has an email exactly when the account is indexed |
| Records.RecordsFollowKeptLinks | controllers/RecordsController.php:82-99 | one record per kept link, built from it, in table order |
| Records.ComparatorAntisymmetric | controllers/RecordsController.php:102-107 | the comparator never puts both a before b and b before a when strnatcmp does not |
| Records.CompareRecords | controllers/RecordsController.php:102-107 | natural order of the column when both records have it; otherwise the order of the ids, equal only for equal ids |
| Records.InsertBack | controllers/RecordsController.php:102 | inserting a record keeps every record and adds one |
| Records.SortRecords | controllers/RecordsController.php:102-107 | sorting is a permutation |
| Records.InsertBackOrdered | controllers/RecordsController.php:102-107 | inserting into an ordered list gives an ordered list |
| Records.SortedRecordsOrdered | controllers/RecordsController.php:101-107 | the sorted records are a permutation with every adjacent pair in comparator order |
| Records.ListingContents | controllers/RecordsController.php:68-110 | the listing holds exactly one record per kept link, in some order |
| Records.IndexUsersById | controllers/RecordsController.php:112-120 | the loop builds the user index |
| Records.CollectRecords | controllers/RecordsController.php:81-99 | the loop builds the records of the kept links in table order |
| Records.GetRecords | controllers/RecordsController.php:68-110 | _getRecords returns the listing of the current tables |
| Records.DeleteCreatedSurvivors | controllers/RecordsController.php:54-59 | exactly the links the plugin did not create survive, and exactly the accounts no created link refers to |
| Records.DeleteCreated | controllers/RecordsController.php:54-59 | the two DELETEs only remove rows: no created link is left, the id counters are kept |
| Records.DeleteCreatedKeepsValid | controllers/RecordsController.php:54-62 | the deletion keeps the table invariant |
| Records.DeleteAction | controllers/RecordsController.php:44-66 | the tables after both deletes, the number of created links, and the flash message |
| Protect.RequireLoginFrom | libraries/HarvardKey/Controller/Plugin/Protect.php:82-101 | login is required exactly when no entry matches the request |
| Protect.RequireLogin | libraries/HarvardKey/Controller/Plugin/Protect.php:75-102 | login is required exactly when no whitelist entry matches; any controller other than users, error and auth requires it |
| Protect.OrderDoesNotMatter | libraries/HarvardKey/Controller/Plugin/Protect.php:82-101 | the order of the whitelist entries does not change the verdict |
| Protect.OpenRoutesWithModule | libraries/HarvardKey/Controller/Plugin/Protect.php:10-16 | with a module, exactly five module/controller/action triples are open |
| Protect.OpenRoutesWithoutModule | libraries/HarvardKey/Controller/Plugin/Protect.php:85-94 | without a module, exactly four controller/action pairs are open |
| Protect.SavedRedirect | libraries/HarvardKey/Controller/Plugin/Protect.php:40-41 | the saved path, followed by "?" and the query only when GET is not empty |
| Protect.PreDispatch | libraries/HarvardKey/Controller/Plugin/Protect.php:25-47 | a redirect to login, with the saved path, exactly when login is required and there is no identity |
| UrlEncoding.HexDigit | controllers/AuthController.php:134 | the digit is an upper-case hexadecimal digit |
| UrlEncoding.HexValue | controllers/AuthController.php:134 | the value of a hexadecimal digit is below 16 |
| UrlEncoding.HexValueOfDigit | controllers/AuthController.php:134 | reading a digit gives back its value |
| UrlEncoding.EncodeByte | controllers/AuthController.php:134 | an unreserved byte stays as it is; any other becomes "%" and two hexadecimal digits of its value |
| UrlEncoding.RawUrlEncode | controllers/AuthController.php:134 | the output holds only unreserved characters, "%" and upper-case hexadecimal digits |
| UrlEncoding.DecodeEncode | controllers/AuthController.php:134 | percent-decoding gives back the encoded string |
| UrlEncoding.EncodedHasNoDelimiters | controllers/AuthController.php:134 | the encoding holds no "&", "=", "#", "?", "+", "/" or space |
| AuthControllers.StripAdminSuffix | controllers/AuthController.php:130-132 | one trailing "/admin" is removed; other base URLs are unchanged |
| AuthControllers.ServiceUrl | controllers/AuthController.php:126-135 | the config URL, then "?return_to=", then a value without delimiters that decodes to the stripped base plus the login path |
| AuthControllers.StripRemovesOneSuffix | controllers/AuthController.php:130-132 | only the last "/admin" is removed |
| AuthControllers.AdminAndPublicAgree | controllers/AuthController.php:126-135 | the admin and the public base URL of a site give the same service URL |
| AuthControllers.IntvalOr | controllers/AuthController.php:53 | an absent setting gives its default; a decimal spelling gives its integer |
| AuthControllers.CounterOf | controllers/AuthController.php:105 | the counter is 0 without a cookie, the integer a decimal spelling gives, and 1 or 0 for an array as it is non-empty or not |
| AuthControllers.ArrayCounterRedirectsAtMostOnce | controllers/AuthController.php:105-117 | an array counter cookie never allows two redirects in a row |
| AuthControllers.RedirectStep | controllers/AuthController.php:107-112 | a redirect exactly when the counter is not positive, the counter then growing by one; otherwise it is reset to 0; from a non-negative counter, positive exactly after a redirect |
| AuthControllers.RedirectCounter.constructor | controllers/AuthController.php:105-106 | the counter is intval of the cookie: 0 when it is missing, 0 or 1 for an array |
| AuthControllers.RedirectCounter.Redirect | controllers/AuthController.php:103-118 | a positive counter is reset with no redirect; otherwise the counter grows by one and the Location is the service URL |
| AuthControllers.CounterStaysNonNegative | controllers/AuthController.php:108-113 | a non-negative counter stays non-negative |
| AuthControllers.NoTwoRedirectsInARow | controllers/AuthController.php:105-117 | from a non-negative counter two consecutive requests never both redirect |
| AuthControllers.RedirectsAlternate | controllers/AuthController.php:105-117 | from a non-negative counter redirecting and not redirecting alternate |
| AuthControllers.NegativeCounterRedirectsTwice | controllers/AuthController.php:106-112 | a counter cookie of "-1" lets two redirects through in a row |
| AuthControllers.LoginAction | controllers/AuthController.php:47-77 | the page and the tables are those of the Login function |
| AuthControllers.Login | controllers/AuthController.php:47-77 | without a cookie or on a throw the tables are unchanged; a redirect to "/" exactly when the page says success, and only for a string cookie |
| AuthControllers.MissingCookieTouchesNothing | controllers/AuthController.php:55-59 | without the cookie the page asks for cookies and nothing is written |
| AuthControllers.BadConfigurationThrows | controllers/AuthController.php:52-63 | the action throws, writing nothing, exactly when the cookie is an array, the secret is unset or shorter than 32 bytes, the expiry is negative, or the whitelist option is unset; an array or unset value raises the TypeError of its parameter |
| AuthControllers.RedirectExactlyOnSuccess | controllers/AuthController.php:64-76 | a redirect to "/" exactly on the adapter's success; on failure the adapter's messages are shown |
| AuthControllers.LoginKeepsValid | controllers/AuthController.php:47-77 | every login request keeps the table invariant |

## Left out

- Floating-point JSON values are not modelled; `Php.Value` has null, booleans, integers, strings and arrays.
- Under PHP 8, `json_decode` can return a scalar such as `5`. `array_key_exists` on it is then a TypeError. The model treats any non-array result as an empty array.
- `Php.IntvalOfIntToString`: `intval` is modelled as optional whitespace, a sign and a run of decimal digits. Its exponent forms and 64-bit saturation are not modelled.
- `Php.LooseEqualsString`: PHP 8 compares numeric strings by value. The model does this only for numeric strings of integer form. Float forms such as "1.0", "1e1" and ".5", and integers beyond 64 bits, are compared as strings.
- `Reconciliation.InArray`: for the same reason, "10" and "1e1" are loosely equal in PHP but not in the model.
- `Reconciliation.IsEmailAllowed`: a whitelist line of float form, such as "1e1", does not admit the numeric email "10" in the model, although PHP admits it.
- `Reconciliation.WhitelistAdmitsExactlyListed`: the numeric case covers only integer-form strings. An email and a line of float form with the same value are admitted by PHP and not by the model. An email address contains "@" and is never numeric (see `AddressesCompareExactly`).
- `Zend_Config::get` and `get_option` are not modelled. An unset setting is read as null (`None`).
- MySQL's case-insensitive collation and varchar truncation are not modelled. The key and email lookups compare strings exactly.
- A `save()` that throws `Omeka_Validate_Exception` is modelled as a save that returns false.
- `AuthAdapters.AuthAdapter.LinkEmailAccount`: saving the reactivated account is assumed to succeed.
- The `updated` timestamp is not modelled. The `inserted` stamp is a parameter.
- `AuthAdapters.AuthAdapter.CreateOmekaUser` requires a saved record (with an id). Its only caller passes one.
- `HarvardKeyUsers.Username`: a record without an id gives "HarvardKeyUser". The model never asks for such a username.
- The key is bound into SQL as the string form of the `id` claim.
- The sort column is the string form of the `sortby` option.
- The cell values compared by `strnatcmp` are the string forms of the columns.
- `Records.SortedRecordsOrdered`: `usort` is modelled as an insertion sort. The model proves a permutation with every adjacent pair in order. It does not prove the exact order of PHP's `zend_sort` when the comparator is not transitive.
- `strnatcmp` is a parameter, and only its antisymmetry is assumed.
- `hash_hmac`, `json_decode`, `json_encode`, `http_build_query` and `time()` are parameters.
- The `===` comparison of HMAC tags is modelled as plain equality. Timing is not modelled.
- Logging (`_log`, `_debug`, `error_log`) is not modelled.
- `setcookie`, `header()`, the session (`Zend_Session_Namespace`), `Zend_Auth` identity storage and view assignments are not modelled. The redirect counter is a plain integer carried between requests.
- `AuthControllers.Cookie`: a cookie sent as an array (`name[]=…`) is modelled by its number of entries only. Its contents never matter: the token constructor refuses any array, and `intval` of an array is 0 or 1.
- `RuntimeException` in `Protect::preDispatch` is left out. It is thrown when no auth object is available, and `Zend_Auth::getInstance()` always returns one.
- `chooseAction`, `init`, `_handlePublicAction`, `browseAction`, `deleteConfirmAction` and `getResourceId` only assign view variables or return constants, so they are not modelled.
- `_findOmekaUserByUsername` is never called.
- `HarvardKeyPlugin.php` (install and uninstall hooks, configuration form, routes, ACL, admin whitelist filter) is not part of this model. Three things are taken from it: the table's unique key on `harvard_key_id`, the guest role name `harvard_key_viewer` and the empty option list.
- The plugin's CREATE TABLE has no `omeka_user_created` column, although the model class and the records controller use one. The model keeps the column.
- `common.php`, which defines `HARVARDKEY_GUEST_ROLE`, is not part of this model. Its value is taken from the role the plugin registers (`HarvardKeyPlugin.php:107`).
- Concurrent requests are not modelled. Each request runs against the tables alone.

## Findings

| source | as written | input that shows it | evidently intended | confidence | as-written member | corrected member |
|---|---|---|---|---|---|---|
| adapters/AuthAdapter.php:124 | `_createOrUpdateUser` calls `isLinkedToUser()`, which `HarvardKeyUser` does not define (models/HarvardKeyUser.php:94 defines `isLinked`). The same holds for `linkExistingUser` (:142), `generateUsername` (:180), `linkNewUser` (:201) and the token's `hasEmail` (:136). | a valid token for a new key on an empty site with no whitelist: the link row is inserted, then the call throws | call `isLinked`, `linkToExisting`, `getUsername` and `linkToNew`, and test the email claim | medium, not executed: the methods are missing from these classes, and Omeka's record base class, which is not part of this model, is taken to throw on an unknown method name | AsWrittenAdapter.FirstLoginThrowsAsWritten | Reconciliation.OtherwiseAccountIsCreated |
