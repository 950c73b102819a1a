/**
 * What one authentication attempt does to the two tables and what it answers, written
 * as functions of the tables before the attempt. The AuthAdapter class carries this out
 * step by step; the lemmas here state the properties of the procedure: an invalid token
 * or a rejected email touches nothing, at most one link row is added, a link that still
 * reaches its account is reused unchanged, an account with the same email takes
 * precedence over creating one, and after a successful attempt the identity's link
 * reaches an existing account.
 */
module Reconciliation {
  import opened Wrappers
  import opened Php
  import opened Directory
  import opened HarvardKeyUsers

  /** The role given when the configured one is unknown (HARVARDKEY_GUEST_ROLE, the role the
      plugin installs). */
  const GUEST_ROLE: string := "harvard_key_viewer"
  const UNUSABLE_PASSWORD: string := "unuseablepassword"

  const MSG_FAILED: string := "Login failed because "
  const MSG_INVALID: string := MSG_FAILED + "login data was invalid."
  const MSG_NO_LINK: string := MSG_FAILED + "could not associate Harvard Key credentials with an Omeka user."
  const MSG_NO_USER: string := MSG_FAILED + "no Omeka user could be found for the Harvard Key user."
  const MSG_INACTIVE: string := MSG_FAILED + "account is inactive. "

  function MsgNotAllowed(email: Value): string {
    MSG_FAILED + "email address [" + AsString(email) + "] is not in the list of allowed emails."
  }

  /** The claims of the token the adapter reads: getId, getName, getEmail. */
  datatype Identity = Identity(id: Value, name: Value, email: Value)

  /** The site configuration: the roles get_user_roles() knows and the harvardkey_role option. */
  datatype Policy = Policy(validRoles: set<string>, configuredRole: string)

  /** What the database and the clock decide: whether the link insert, the link update and
      the user insert succeed, and the timestamp an inserted link gets. */
  datatype Env = Env(linkInsertOk: bool, linkSaveOk: bool, userInsertOk: bool, stamp: string)

  // ------------------------------------------------------------ email whitelist

  predicate IsBreak(c: char) {
    c == '\r' || c == '\n'
  }

  predicate NoBreak(s: string) {
    forall k :: 0 <= k < |s| ==> !IsBreak(s[k])
  }

  /** preg_split on \r\n, \n or \r: the pieces between line breaks, \r\n counting as one. */
  function SplitLines(s: string): (r: seq<string>)
    ensures |r| >= 1
    ensures forall i :: 0 <= i < |r| ==> NoBreak(r[i])
    decreases |s|
  {
    if s == [] then [""]
    else if s[0] == '\r' && |s| >= 2 && s[1] == '\n' then [""] + SplitLines(s[2..])
    else if IsBreak(s[0]) then [""] + SplitLines(s[1..])
    else
      var rest := SplitLines(s[1..]);
      [[s[0]] + rest[0]] + rest[1..]
  }

  /** The lines joined with \n: the inverse of SplitLines on lines without breaks. */
  function JoinLines(lines: seq<string>): string
    requires |lines| >= 1
  {
    if |lines| == 1 then lines[0] else lines[0] + "\n" + JoinLines(lines[1..])
  }

  lemma {:induction false} SplitLinesPrefix(w: string, t: string)
    requires NoBreak(w)
    ensures SplitLines(w + t) == [w + SplitLines(t)[0]] + SplitLines(t)[1..]
    decreases |w|
  {
    if w != [] {
      assert (w + t)[1..] == w[1..] + t;
      assert !IsBreak(w[0]);
      SplitLinesPrefix(w[1..], t);
      assert [w[0]] + (w[1..] + SplitLines(t)[0]) == w + SplitLines(t)[0];
    } else {
      var r := SplitLines(t);
      assert w + t == t;
      assert w + r[0] == r[0];
      assert r == [r[0]] + r[1..];
    }
  }

  lemma {:induction false} SplitJoinLines(lines: seq<string>)
    requires |lines| >= 1
    requires forall i :: 0 <= i < |lines| ==> NoBreak(lines[i])
    ensures SplitLines(JoinLines(lines)) == lines
    decreases |lines|
  {
    if |lines| == 1 {
      SplitLinesPrefix(lines[0], "");
      assert lines[0] + "" == lines[0];
    } else {
      var rest := JoinLines(lines[1..]);
      assert lines[0] + "\n" + rest == lines[0] + ("\n" + rest);
      SplitLinesPrefix(lines[0], "\n" + rest);
      assert ("\n" + rest)[1..] == rest;
      SplitJoinLines(lines[1..]);
      assert lines[0] + "" == lines[0];
    }
  }

  /** in_array with loose comparison. */
  function InArray(v: Value, xs: seq<string>): (r: bool)
    ensures r <==> exists i :: 0 <= i < |xs| && LooseEqualsString(v, xs[i])
  {
    if xs == [] then false
    else LooseEqualsString(v, xs[0]) || InArray(v, xs[1..])
  }

  /** _isEmailAllowed: an empty whitelist admits every email; otherwise the email must
      equal one of its lines. */
  function IsEmailAllowed(allowedEmails: string, email: Value): (r: bool)
    ensures allowedEmails == "" ==> r
    ensures allowedEmails != "" ==>
      (r <==> exists line :: line in SplitLines(allowedEmails) && LooseEqualsString(email, line))
  {
    if allowedEmails == "" then true else InArray(email, SplitLines(allowedEmails))
  }

  /** A whitelist written one entry per line admits exactly the listed strings and, when the
      email is a numeric string, every listed numeric string of the same value. */
  lemma WhitelistAdmitsExactlyListed(lines: seq<string>, email: string)
    requires |lines| >= 1 && JoinLines(lines) != ""
    requires forall i :: 0 <= i < |lines| ==> NoBreak(lines[i])
    ensures IsEmailAllowed(JoinLines(lines), Str(email)) <==>
      email in lines
      || (IsIntegerNumeric(email) && exists line :: line in lines && IsIntegerNumeric(line) && StrIntval(line) == StrIntval(email))
  {
    SplitJoinLines(lines);
    if email in lines {
      LooseEqualsOwnSpelling(0, email);
    }
  }

  /** An email address contains "@", so it is never numeric: the whitelist admits it exactly
      when it is one of the lines. */
  lemma AddressesCompareExactly(lines: seq<string>, email: string)
    requires |lines| >= 1 && JoinLines(lines) != ""
    requires forall i :: 0 <= i < |lines| ==> NoBreak(lines[i])
    requires '@' in email
    ensures IsEmailAllowed(JoinLines(lines), Str(email)) <==> email in lines
  {
    AddressIsNotNumeric(email);
    WhitelistAdmitsExactlyListed(lines, email);
  }

  lemma AddressIsNotNumeric(email: string)
    requires '@' in email
    ensures !IsIntegerNumeric(email)
  {
    if IsIntegerNumeric(email) {
      IntegerNumericCharacters(email);
    }
  }

  /** A whitelist that ends with a line break has an empty last line, and a token without
      an email (null) equals "" loosely, so it is admitted. */
  lemma TrailingBreakAdmitsMissingEmail(address: string)
    requires NoBreak(address)
    ensures IsEmailAllowed(address + "\n", Null)
  {
    SplitJoinLines([address, ""]);
    assert JoinLines([address, ""]) == address + "\n";
    assert LooseEqualsString(Null, SplitLines(address + "\n")[1]);
  }

  // ------------------------------------------------------------ role and account fields

  /** _getOmekaRole: the configured role when the site knows it, else the guest role. */
  function OmekaRole(policy: Policy): (r: string)
    ensures r == policy.configuredRole <==> policy.configuredRole in policy.validRoles || policy.configuredRole == GUEST_ROLE
    ensures r == policy.configuredRole || r == GUEST_ROLE
    ensures r in policy.validRoles || r == GUEST_ROLE
  {
    if policy.configuredRole in policy.validRoles then policy.configuredRole else GUEST_ROLE
  }

  /** Nothing keeps a known role out, including the administrator role. */
  lemma AnyKnownRoleIsGranted(policy: Policy)
    requires "super" in policy.validRoles && policy.configuredRole == "super"
    ensures OmekaRole(policy) == "super"
  {
  }

  /** hasEmail: the token carries a non-null, non-empty email. A string email has one
      exactly when its string form is not empty, and a falsy email other than "0" has none. */
  function HasEmail(v: Value): (r: bool)
    ensures v.Str? ==> (r <==> AsString(v) != "")
    ensures v.Null? ==> !r
    ensures !r ==> !Truthy(v)
  {
    v != Null && v != Str("")
  }

  /** The columns of the account _createOmekaUser inserts (its id is assigned by the table). */
  function NewAccount(username: string, who: Identity, role: string): (u: User)
    ensures u.username == username && u.role == role && u.active && u.password == UNUSABLE_PASSWORD
    ensures u.name == (if Truthy(who.name) then AsString(who.name) else username)
    ensures u.email == (if Truthy(who.email) then AsString(who.email) else "")
  {
    User(0, username, if Truthy(who.name) then AsString(who.name) else username,
         if Truthy(who.email) then AsString(who.email) else "", role, true, UNUSABLE_PASSWORD)
  }

  // ------------------------------------------------------------ the procedure

  /** How _createOrUpdateUser ends: it gives up (false), leaving the tables as they are by
      then, or it returns the link record, whose fields may be ahead of its stored row
      when the last link update failed. */
  datatype Outcome = Aborted(tables: Tables) | Linked(record: Link, tables: Tables)

  /** The record found for the key, or a new record inserted by saveIdentity. */
  function FindOrCreateLink(t: Tables, key: string, env: Env): Option<(Link, Tables)> {
    match LinkByHarvardKeyId(t.links, key)
    case Some(l) => Some((l, t))
    case None => Persist(t, Link(0, key, None, None, ""), true, env.stamp, env.linkInsertOk)
  }

  /** The account a record's link still reaches: none when it is unlinked or stale. */
  function LinkedAccount(t: Tables, rec: Link): Option<nat> {
    if IdTruthy(rec.omekaUserId) then
      match UserById(t.users, rec.omekaUserId.value)
      case Some(u) => Some(u.id)
      case None => None
    else None
  }

  /** The tables after a link record's update, which leaves them as they were when it fails. */
  function AfterSave(t: Tables, rec: Link, env: Env): Tables {
    match Persist(t, rec, false, env.stamp, env.linkSaveOk)
    case Some((_, n)) => n
    case None => t
  }

  /** _createOmekaUser followed by linkNewUser. */
  function CreateAccount(t: Tables, rec: Link, who: Identity, policy: Policy, env: Env): Outcome {
    var fields := NewAccount(Username(Some(rec.id)), who, OmekaRole(policy));
    match InsertUser(t, fields, env.userInsertOk)
    case None => Aborted(t)
    case Some((uid, t1)) =>
      if !IdTruthy(Some(uid)) then Aborted(t1)
      else
        var rec1 := rec.(omekaUserId := Some(uid), omekaUserCreated := Some(true));
        Linked(rec1, AfterSave(t1, rec1, env))
  }

  /** linkExistingUser to an account with the token's email, then its reactivation; the
      account's id decides whether an account must still be created. */
  function LinkByEmail(t: Tables, rec: Link, u: User, who: Identity, policy: Policy, env: Env): Outcome {
    var rec1 := rec.(omekaUserId := Some(u.id), omekaUserCreated := Some(false));
    var t2 := UpdateUser(AfterSave(t, rec1, env), u.(active := true));
    if IdTruthy(Some(u.id)) then Linked(rec1, t2) else CreateAccount(t2, rec1, who, policy, env)
  }

  /** The steps of _createOrUpdateUser after the link record is in hand: reuse the account
      it still reaches, else link an account with the token's email, else create one. */
  function Resolve(t: Tables, rec: Link, who: Identity, policy: Policy, env: Env): (r: Outcome)
    ensures IdTruthy(LinkedAccount(t, rec)) ==> r == Linked(rec, t)
    ensures r.Linked? ==> && r.record.id == rec.id && r.record.harvardKeyId == rec.harvardKeyId
                          && IdTruthy(r.record.omekaUserId)
  {
    if IdTruthy(LinkedAccount(t, rec)) then Linked(rec, t)
    else
      var byEmail := if HasEmail(who.email) then UserByEmail(t.users, AsString(who.email)) else None;
      match byEmail
      case None => CreateAccount(t, rec, who, policy, env)
      case Some(u) => LinkByEmail(t, rec, u, who, policy, env)
  }

  /** _createOrUpdateUser: find or insert the link record for the token's id, then resolve it. */
  function Reconcile(t: Tables, who: Identity, policy: Policy, env: Env): (r: Outcome)
    ensures FindOrCreateLink(t, AsString(who.id), env).None? ==> r == Aborted(t)
    ensures r.Linked? ==> r.record.harvardKeyId == AsString(who.id) && IdTruthy(r.record.omekaUserId)
  {
    match FindOrCreateLink(t, AsString(who.id), env)
    case None => Aborted(t)
    case Some((rec, t1)) => Resolve(t1, rec, who, policy, env)
  }

  /** Zend_Auth_Result codes SUCCESS, FAILURE and FAILURE_CREDENTIAL_INVALID. */
  datatype Code = AuthSuccess | AuthFailure | AuthFailureCredentialInvalid
  datatype AuthResult = AuthResult(code: Code, identity: Option<nat>, messages: seq<string>)
  datatype Verdict = Verdict(result: AuthResult, tables: Tables)

  /** The verdict on the account a returned link record points to. */
  function AccountVerdict(t: Tables, rec: Link): (r: AuthResult)
    ensures r.code != AuthFailureCredentialInvalid
    ensures r.identity.None? <==> rec.omekaUserId.None? || UserById(t.users, rec.omekaUserId.value).None?
    ensures r.identity.Some? ==> r.identity == rec.omekaUserId
    ensures r.code == AuthSuccess <==> r.identity.Some? && UserById(t.users, rec.omekaUserId.value).value.active
    ensures r.code == AuthSuccess <==> r.messages == []
  {
    var account := if rec.omekaUserId.Some? then UserById(t.users, rec.omekaUserId.value) else None;
    match account
    case None => AuthResult(AuthFailure, None, [MSG_NO_USER])
    case Some(u) =>
      if !u.active then AuthResult(AuthFailure, rec.omekaUserId, [MSG_INACTIVE])
      else AuthResult(AuthSuccess, rec.omekaUserId, [])
  }

  /** authenticate: token check, whitelist, reconciliation, then the account check. */
  function Authenticate(t: Tables, tokenValid: bool, who: Identity, allowedEmails: string, policy: Policy, env: Env): (v: Verdict)
    ensures v.result.code == AuthFailureCredentialInvalid <==> !tokenValid
    ensures v.result.code == AuthSuccess ==> tokenValid && IsEmailAllowed(allowedEmails, who.email) && v.result.identity.Some?
    ensures v.result.code == AuthSuccess <==> v.result.messages == []
    ensures v.tables == t || (tokenValid && IsEmailAllowed(allowedEmails, who.email))
  {
    if !tokenValid then Verdict(AuthResult(AuthFailureCredentialInvalid, None, [MSG_INVALID]), t)
    else if !IsEmailAllowed(allowedEmails, who.email) then Verdict(AuthResult(AuthFailure, None, [MsgNotAllowed(who.email)]), t)
    else match Reconcile(t, who, policy, env)
      case Aborted(t1) => Verdict(AuthResult(AuthFailure, None, [MSG_NO_LINK]), t1)
      case Linked(rec, t1) => Verdict(AccountVerdict(t1, rec), t1)
  }

  // ------------------------------------------------------------ properties

  /** The record FindOrCreateLink returns is the stored row for the key: the row found, or
      a new unlinked row appended when none existed. Users are untouched. */
  lemma FindOrCreateLinkFacts(t: Tables, key: string, env: Env)
    requires TablesValid(t)
    ensures var r := FindOrCreateLink(t, key, env);
      && (r.Some? ==> && TablesValid(r.value.1) && r.value.0 in r.value.1.links
                      && r.value.0.harvardKeyId == key
                      && LinkByHarvardKeyId(r.value.1.links, key) == Some(r.value.0)
                      && r.value.1.users == t.users && r.value.1.nextUserId == t.nextUserId)
      && (LinkByHarvardKeyId(t.links, key).Some? ==> r == Some((LinkByHarvardKeyId(t.links, key).value, t)))
      && (LinkByHarvardKeyId(t.links, key).None? ==>
            && (r.Some? <==> env.linkInsertOk)
            && (r.Some? ==> && r.value.0 == Link(t.nextLinkId, key, None, None, env.stamp)
                            && r.value.1.links == t.links + [r.value.0]))
  {
    var r := FindOrCreateLink(t, key, env);
    if LinkByHarvardKeyId(t.links, key).None? {
      PersistKeepsValid(t, Link(0, key, None, None, ""), true, env.stamp, env.linkInsertOk);
      if r.Some? {
        LinkLookupFindsRow(r.value.1, r.value.0);
      }
    }
  }

  /** Saving a record that came from its table keeps the tables valid and leaves the users
      alone; when the save succeeds the key finds the saved record. */
  lemma AfterSaveFacts(t: Tables, l: Link, rec: Link, env: Env)
    requires TablesValid(t) && l in t.links && rec.id == l.id && rec.harvardKeyId == l.harvardKeyId
    ensures var n := AfterSave(t, rec, env);
      && TablesValid(n) && n.users == t.users && n.nextUserId == t.nextUserId
      && |n.links| == |t.links|
      && (forall i :: 0 <= i < |t.links| ==> n.links[i].id == t.links[i].id && n.links[i].harvardKeyId == t.links[i].harvardKeyId)
      && (env.linkSaveOk ==> rec in n.links && LinkByHarvardKeyId(n.links, rec.harvardKeyId) == Some(rec))
      && (!env.linkSaveOk ==> n == t)
  {
    UpdateOfStoredRecord(t, l, rec, env.linkSaveOk);
    var n := AfterSave(t, rec, env);
    forall i | 0 <= i < |t.links| ensures n.links[i].id == t.links[i].id && n.links[i].harvardKeyId == t.links[i].harvardKeyId {
      assert t.links[i] in t.links;
    }
  }

  /** The account creation path on valid tables: it fails exactly when the insert fails;
      otherwise the one new account has the generated columns and the record links to it
      with created = 1. */
  lemma CreateAccountFacts(t: Tables, rec: Link, who: Identity, policy: Policy, env: Env)
    requires TablesValid(t) && rec in t.links
    ensures var o := CreateAccount(t, rec, who, policy, env);
      && TablesValid(o.tables)
      && (o.Linked? <==> env.userInsertOk)
      && (o.Aborted? ==> o.tables == t)
      && (o.Linked? ==>
            && o.record == rec.(omekaUserId := Some(t.nextUserId), omekaUserCreated := Some(true))
            && o.tables.users == t.users + [NewAccount(Username(Some(rec.id)), who, OmekaRole(policy)).(id := t.nextUserId)]
            && |o.tables.links| == |t.links|
            && (forall i :: 0 <= i < |t.links| ==> o.tables.links[i].id == t.links[i].id && o.tables.links[i].harvardKeyId == t.links[i].harvardKeyId)
            && (env.linkSaveOk ==> LinkByHarvardKeyId(o.tables.links, rec.harvardKeyId) == Some(o.record)))
  {
    var fields := NewAccount(Username(Some(rec.id)), who, OmekaRole(policy));
    InsertUserKeepsValid(t, fields, env.userInsertOk);
    var r := InsertUser(t, fields, env.userInsertOk);
    if r.Some? {
      var t1 := r.value.1;
      var rec1 := rec.(omekaUserId := Some(t.nextUserId), omekaUserCreated := Some(true));
      AfterSaveFacts(t1, rec, rec1, env);
    }
  }

  /** Both tables keep their link rows in place: same count, same ids, same keys. */
  ghost predicate SameRows(t: Tables, n: Tables) {
    && |n.links| == |t.links|
    && forall i :: 0 <= i < |t.links| ==> n.links[i].id == t.links[i].id && n.links[i].harvardKeyId == t.links[i].harvardKeyId
  }

  /** A returned link record holds the key and reaches an existing account, and the stored
      row agrees with it when link updates succeed. */
  ghost predicate Reaches(o: Outcome, key: string, env: Env) {
    o.Linked? ==>
      && o.record.harvardKeyId == key
      && IdTruthy(o.record.omekaUserId)
      && UserById(o.tables.users, o.record.omekaUserId.value).Some?
      && (env.linkSaveOk ==> LinkByHarvardKeyId(o.tables.links, key) == Some(o.record))
  }

  lemma LinkByEmailFacts(t: Tables, rec: Link, u: User, who: Identity, policy: Policy, env: Env)
    requires TablesValid(t) && rec in t.links && u in t.users
    ensures var o := LinkByEmail(t, rec, u, who, policy, env);
      && o == Linked(rec.(omekaUserId := Some(u.id), omekaUserCreated := Some(false)), o.tables)
      && TablesValid(o.tables) && SameRows(t, o.tables)
      && |o.tables.users| == |t.users|
      && UserById(o.tables.users, u.id) == Some(u.(active := true))
      && Reaches(o, rec.harvardKeyId, env)
  {
    var rec1 := rec.(omekaUserId := Some(u.id), omekaUserCreated := Some(false));
    AfterSaveFacts(t, rec, rec1, env);
    var t2 := AfterSave(t, rec1, env);
    UpdateOfStoredUser(t2, u, u.(active := true));
    assert u.id > 0;
  }

  lemma ResolveFacts(t: Tables, rec: Link, who: Identity, policy: Policy, env: Env)
    requires TablesValid(t) && rec in t.links
    requires LinkByHarvardKeyId(t.links, rec.harvardKeyId) == Some(rec)
    ensures var o := Resolve(t, rec, who, policy, env);
      TablesValid(o.tables) && SameRows(t, o.tables) && Reaches(o, rec.harvardKeyId, env)
  {
    if !IdTruthy(LinkedAccount(t, rec)) {
      var byEmail := if HasEmail(who.email) then UserByEmail(t.users, AsString(who.email)) else None;
      if byEmail.None? {
        CreateAccountFacts(t, rec, who, policy, env);
        var o := CreateAccount(t, rec, who, policy, env);
        if o.Linked? {
          assert o.tables.users[|t.users|].id == t.nextUserId;
          assert o.tables.users[|t.users|] in o.tables.users;
        }
      } else {
        LinkByEmailFacts(t, rec, byEmail.value, who, policy, env);
      }
    }
  }

  /** Reconciliation keeps the table invariants, adds at most one link row and only when the
      key had none, keeps every existing row's id and key, and a returned link record
      reaches an existing account. */
  lemma ReconcileFacts(t: Tables, who: Identity, policy: Policy, env: Env)
    requires TablesValid(t)
    ensures var o := Reconcile(t, who, policy, env);
      && TablesValid(o.tables)
      && |t.links| <= |o.tables.links| <= |t.links| + 1
      && (|o.tables.links| > |t.links| ==> LinkByHarvardKeyId(t.links, AsString(who.id)).None?)
      && (forall i :: 0 <= i < |t.links| ==> o.tables.links[i].id == t.links[i].id && o.tables.links[i].harvardKeyId == t.links[i].harvardKeyId)
      && Reaches(o, AsString(who.id), env)
  {
    var key := AsString(who.id);
    FindOrCreateLinkFacts(t, key, env);
    var f := FindOrCreateLink(t, key, env);
    if f.Some? {
      var (rec, t1) := f.value;
      ResolveFacts(t1, rec, who, policy, env);
      var o := Resolve(t1, rec, who, policy, env);
      assert forall i :: 0 <= i < |t.links| ==> t1.links[i].id == t.links[i].id && t1.links[i].harvardKeyId == t.links[i].harvardKeyId;
    }
  }

  /** Reconciliation keeps the table invariants. */
  lemma ReconcileKeepsValid(t: Tables, who: Identity, policy: Policy, env: Env)
    requires TablesValid(t)
    ensures TablesValid(Reconcile(t, who, policy, env).tables)
  {
    ReconcileFacts(t, who, policy, env);
  }

  /** An invalid token and a rejected email each end the attempt before any table changes. */
  lemma GatesTouchNothing(t: Tables, tokenValid: bool, who: Identity, allowedEmails: string, policy: Policy, env: Env)
    ensures !tokenValid ==>
      Authenticate(t, tokenValid, who, allowedEmails, policy, env) == Verdict(AuthResult(AuthFailureCredentialInvalid, None, [MSG_INVALID]), t)
    ensures tokenValid && !IsEmailAllowed(allowedEmails, who.email) ==>
      Authenticate(t, tokenValid, who, allowedEmails, policy, env) == Verdict(AuthResult(AuthFailure, None, [MsgNotAllowed(who.email)]), t)
  {
  }

  /** Idempotence: a link that still reaches its account is returned as it is, no email
      lookup or account creation happens and no table changes. */
  lemma ReachableLinkIsReused(t: Tables, who: Identity, policy: Policy, env: Env, l: Link)
    requires LinkByHarvardKeyId(t.links, AsString(who.id)) == Some(l)
    requires IdTruthy(LinkedAccount(t, l))
    ensures Reconcile(t, who, policy, env) == Linked(l, t)
  {
  }

  /** Email precedence: when the identity's link is missing or stale and an account has the
      token's email, the link points to that account with created = 0, the account is
      reactivated and no account is created. */
  lemma EmailMatchTakesPrecedence(t: Tables, who: Identity, policy: Policy, env: Env, u: User)
    requires TablesValid(t)
    requires var l := LinkByHarvardKeyId(t.links, AsString(who.id));
      if l.Some? then !IdTruthy(LinkedAccount(t, l.value)) else env.linkInsertOk
    requires HasEmail(who.email) && UserByEmail(t.users, AsString(who.email)) == Some(u)
    ensures var o := Reconcile(t, who, policy, env);
      && o.Linked?
      && o.record.omekaUserId == Some(u.id) && o.record.omekaUserCreated == Some(false)
      && |o.tables.users| == |t.users|
      && UserById(o.tables.users, u.id) == Some(u.(active := true))
      && (env.linkSaveOk ==> LinkByHarvardKeyId(o.tables.links, AsString(who.id)) == Some(o.record))
  {
    var key := AsString(who.id);
    FindOrCreateLinkFacts(t, key, env);
    var (rec, t1) := FindOrCreateLink(t, key, env).value;
    assert !IdTruthy(LinkedAccount(t1, rec));
    assert Reconcile(t, who, policy, env) == LinkByEmail(t1, rec, u, who, policy, env);
    LinkByEmailFacts(t1, rec, u, who, policy, env);
  }

  /** Otherwise a new account is created with the generated username, the name and email
      fallbacks, the configured role, active and an unusable password, and the link points
      to it with created = 1; a failed insert aborts. */
  lemma OtherwiseAccountIsCreated(t: Tables, who: Identity, policy: Policy, env: Env)
    requires TablesValid(t)
    requires var l := LinkByHarvardKeyId(t.links, AsString(who.id));
      if l.Some? then !IdTruthy(LinkedAccount(t, l.value)) else env.linkInsertOk
    requires !HasEmail(who.email) || UserByEmail(t.users, AsString(who.email)).None?
    ensures var o := Reconcile(t, who, policy, env);
      && (o.Linked? <==> env.userInsertOk)
      && (o.Linked? ==>
            && o.record.omekaUserId == Some(t.nextUserId) && o.record.omekaUserCreated == Some(true)
            && o.tables.users == t.users + [NewAccount(Username(Some(o.record.id)), who, OmekaRole(policy)).(id := t.nextUserId)])
  {
    var key := AsString(who.id);
    FindOrCreateLinkFacts(t, key, env);
    var (rec, t1) := FindOrCreateLink(t, key, env).value;
    CreateAccountFacts(t1, rec, who, policy, env);
  }

  /** The "no Omeka user could be found" failure never happens on valid tables: every
      returned link record reaches an existing account, so a verdict without an identity
      comes from the token check, the whitelist or an aborted reconciliation. */
  lemma NoMissingAccountVerdict(t: Tables, tokenValid: bool, who: Identity, allowedEmails: string, policy: Policy, env: Env)
    requires TablesValid(t)
    ensures var v := Authenticate(t, tokenValid, who, allowedEmails, policy, env);
      v.result.identity.None? <==>
        !tokenValid || !IsEmailAllowed(allowedEmails, who.email) || Reconcile(t, who, policy, env).Aborted?
  {
    ReconcileFacts(t, who, policy, env);
  }

  /** The final account check: once a link record is returned, the verdict names its
      account, which exists; the attempt succeeds exactly when that account is active and
      otherwise fails with the inactive-account message. */
  lemma LinkedVerdictFollowsAccount(t: Tables, tokenValid: bool, who: Identity, allowedEmails: string, policy: Policy, env: Env)
    requires TablesValid(t) && tokenValid && IsEmailAllowed(allowedEmails, who.email)
    requires Reconcile(t, who, policy, env).Linked?
    ensures var o := Reconcile(t, who, policy, env);
      var v := Authenticate(t, tokenValid, who, allowedEmails, policy, env);
      && v.tables == o.tables
      && o.record.omekaUserId.Some? && v.result.identity == o.record.omekaUserId
      && UserById(o.tables.users, o.record.omekaUserId.value).Some?
      && (v.result.code == AuthSuccess <==> UserById(o.tables.users, o.record.omekaUserId.value).value.active)
      && (v.result.code != AuthSuccess ==> v.result.code == AuthFailure && v.result.messages == [MSG_INACTIVE])
  {
    ReconcileFacts(t, who, policy, env);
  }

  /** A link that still reaches an inactive account is reused as it is, so the attempt
      fails with the inactive-account message, names the account and writes nothing. */
  lemma InactiveReusedAccountFails(t: Tables, who: Identity, allowedEmails: string, policy: Policy, env: Env, l: Link)
    requires IsEmailAllowed(allowedEmails, who.email)
    requires LinkByHarvardKeyId(t.links, AsString(who.id)) == Some(l)
    requires IdTruthy(LinkedAccount(t, l))
    requires !UserById(t.users, l.omekaUserId.value).value.active
    ensures Authenticate(t, true, who, allowedEmails, policy, env)
            == Verdict(AuthResult(AuthFailure, l.omekaUserId, [MSG_INACTIVE]), t)
  {
    ReachableLinkIsReused(t, who, policy, env, l);
  }

  /** That is the only way to meet an inactive account: linking by email reactivates the
      account and a created account is active, so on valid tables the inactive-account
      failure means the stored link was reused and nothing was written. */
  lemma InactivityOnlyOnReuse(t: Tables, who: Identity, policy: Policy, env: Env)
    requires TablesValid(t)
    requires Reconcile(t, who, policy, env).Linked?
    ensures var o := Reconcile(t, who, policy, env);
      AccountVerdict(o.tables, o.record).messages == [MSG_INACTIVE] ==>
        var l := LinkByHarvardKeyId(t.links, AsString(who.id));
        l.Some? && IdTruthy(LinkedAccount(t, l.value)) && o == Linked(l.value, t)
  {
    var key := AsString(who.id);
    var l := LinkByHarvardKeyId(t.links, key);
    FindOrCreateLinkFacts(t, key, env);
    if l.Some? && IdTruthy(LinkedAccount(t, l.value)) {
      ReachableLinkIsReused(t, who, policy, env, l.value);
    } else if HasEmail(who.email) && UserByEmail(t.users, AsString(who.email)).Some? {
      EmailMatchTakesPrecedence(t, who, policy, env, UserByEmail(t.users, AsString(who.email)).value);
    } else {
      OtherwiseAccountIsCreated(t, who, policy, env);
      ReconcileKeepsValid(t, who, policy, env);
      var o := Reconcile(t, who, policy, env);
      var users := o.tables.users;
      assert users[|users| - 1] in users;
      UserLookupFindsRow(o.tables, users[|users| - 1]);
    }
  }

  /** Idempotence of a repeated attempt: once an attempt has stored its link, the next
      attempt with the same token reuses it and changes nothing. */
  lemma SecondAttemptChangesNothing(t: Tables, who: Identity, policy: Policy, env: Env, env2: Env)
    requires TablesValid(t) && env.linkSaveOk
    requires Reconcile(t, who, policy, env).Linked?
    ensures var o := Reconcile(t, who, policy, env);
      Reconcile(o.tables, who, policy, env2) == Linked(o.record, o.tables)
  {
    ReconcileFacts(t, who, policy, env);
  }

  /** The same holds for the whole verdict: a repeated attempt answers as the first did. */
  lemma RepeatedLoginAnswersAlike(t: Tables, tokenValid: bool, who: Identity, allowedEmails: string, policy: Policy, env: Env, env2: Env)
    requires TablesValid(t) && env.linkSaveOk
    requires Authenticate(t, tokenValid, who, allowedEmails, policy, env).result.code == AuthSuccess
    ensures var v := Authenticate(t, tokenValid, who, allowedEmails, policy, env);
      Authenticate(v.tables, tokenValid, who, allowedEmails, policy, env2) == v
  {
    SecondAttemptChangesNothing(t, who, policy, env, env2);
  }
}
