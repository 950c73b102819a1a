/**
 * HarvardKey_Auth_Adapter: checks the token, applies the email whitelist, finds or creates
 * the link record and the Omeka account, and answers with a Zend_Auth_Result. Each method
 * is proved to do what the corresponding function of Reconciliation describes.
 */
module AuthAdapters {
  import opened Wrappers
  import opened Php
  import opened Directory
  import opened HarvardKeyUsers
  import opened Reconciliation
  import opened JsonIdentityTokens

  class AuthAdapter {
    const db: Db
    const token: JsonIdentityToken
    const allowedEmails: string

    constructor (db: Db, token: JsonIdentityToken, emails: string)
      ensures this.db == db && this.token == token && allowedEmails == emails
    {
      this.db, this.token, allowedEmails := db, token, emails;
    }

    /** The claims the adapter reads from the token. */
    function Who(): Identity
      reads token
    {
      Identity(token.GetId(), token.GetName(), token.GetEmail())
    }

    /** _createOmekaUser: insert the account built from the token's claims and link the
        record to it as a new account. The record has been saved, so it has an id. */
    method CreateOmekaUser(rec: HarvardKeyUser, policy: Policy, env: Env) returns (userId: Option<nat>)
      requires rec.id.Some?
      modifies db, rec
      ensures var o := CreateAccount(old(db.Contents()), old(rec.Fields()), Who(), policy, env);
        && (userId.Some? <==> o.Linked?)
        && db.Contents() == o.tables
        && (o.Linked? ==> rec.Fields() == o.record && userId == o.record.omekaUserId)
        && (o.Aborted? ==> rec.Fields() == old(rec.Fields()))
        && rec.id == old(rec.id)
    {
      var name, email := token.GetName(), token.GetEmail();
      var role := OmekaRole(policy);
      var username := rec.GetUsername();
      var fields := User(0, username, if Truthy(name) then AsString(name) else username,
                         if Truthy(email) then AsString(email) else "", role, true, UNUSABLE_PASSWORD);
      var inserted := db.InsertUserRow(fields, env.userInsertOk);
      if inserted.None? || !IdTruthy(inserted) {
        return None;
      }
      var _ := rec.LinkToNew(db, inserted.value, env.stamp, env.linkSaveOk);
      userId := inserted;
    }

    /** The first part of _createOrUpdateUser: the record for the key, loaded when it
        exists, else a new record saved by saveIdentity. None when that insert fails. */
    method FindOrCreateRecord(key: string, env: Env) returns (r: Option<HarvardKeyUser>)
      modifies db
      ensures var f := FindOrCreateLink(old(db.Contents()), key, env);
        && (r.Some? <==> f.Some?)
        && (r.None? ==> db.Contents() == old(db.Contents()))
        && (r.Some? ==> fresh(r.value) && r.value.id.Some? && (r.value.Fields(), db.Contents()) == f.value)
    {
      var found := FindByHarvardKeyId(db, key);
      if found.Some? {
        return found;
      }
      var rec := new HarvardKeyUser();
      var saved := rec.SaveIdentity(db, key, env.stamp, env.linkInsertOk);
      if !saved {
        return None;
      }
      r := Some(rec);
    }

    /** The email branch of _createOrUpdateUser: linkExistingUser, then the account is set
        active and saved; unless its id is falsy, no account is created. */
    method LinkEmailAccount(rec: HarvardKeyUser, u: User, policy: Policy, env: Env) returns (linked: bool)
      requires rec.id.Some?
      modifies db, rec
      ensures var o := LinkByEmail(old(db.Contents()), old(rec.Fields()), u, Who(), policy, env);
        && db.Contents() == o.tables
        && (linked <==> o.Linked?)
        && (linked ==> rec.Fields() == o.record)
    {
      var _ := rec.LinkToExisting(db, u.id, env.stamp, env.linkSaveOk);
      db.UpdateUserRow(u.(active := true));
      if IdTruthy(Some(u.id)) {
        return true;
      }
      var created := CreateOmekaUser(rec, policy, env);
      linked := created.Some?;
    }

    /** The rest of _createOrUpdateUser: keep the account the record still reaches, else
        link an account with the token's email and reactivate it, else create an account.
        False where the source returns false. */
    method ResolveRecord(rec: HarvardKeyUser, policy: Policy, env: Env) returns (linked: bool)
      requires rec.id.Some?
      modifies db, rec
      ensures var o := Resolve(old(db.Contents()), old(rec.Fields()), Who(), policy, env);
        && db.Contents() == o.tables
        && (linked <==> o.Linked?)
        && (linked ==> rec.Fields() == o.record)
    {
      ghost var t, rec0 := db.Contents(), rec.Fields();
      var omekaUserId: Option<nat> := None;
      if rec.IsLinked() {
        var account := UserById(db.users, rec.omekaUserId.value);
        if account.Some? {
          omekaUserId := Some(account.value.id);
        }
      }
      assert omekaUserId == LinkedAccount(t, rec0);
      if IdTruthy(omekaUserId) {
        return true;
      }
      if HasEmail(token.GetEmail()) {
        var account := UserByEmail(db.users, AsString(token.GetEmail()));
        if account.Some? {
          linked := LinkEmailAccount(rec, account.value, policy, env);
          return;
        }
      }
      var created := CreateOmekaUser(rec, policy, env);
      linked := created.Some?;
    }

    /** _createOrUpdateUser: the link record, found or inserted, then linked to an account.
        None where the source returns false. */
    method CreateOrUpdateUser(policy: Policy, env: Env) returns (r: Option<HarvardKeyUser>)
      modifies db
      ensures var o := Reconcile(old(db.Contents()), Who(), policy, env);
        && db.Contents() == o.tables
        && (r.Some? <==> o.Linked?)
        && (r.Some? ==> fresh(r.value) && r.value.Fields() == o.record)
    {
      var found := FindOrCreateRecord(AsString(token.GetId()), env);
      if found.None? {
        return None;
      }
      var rec := found.value;
      var linked := ResolveRecord(rec, policy, env);
      r := if linked then Some(rec) else None;
    }

    /** authenticate: the token check, the whitelist, reconciliation and the account check. */
    method Authenticate(now: int, policy: Policy, env: Env) returns (result: AuthResult)
      modifies db
      ensures var v := Reconciliation.Authenticate(old(db.Contents()), token.IsValid(now), Who(), allowedEmails, policy, env);
        result == v.result && db.Contents() == v.tables
    {
      if !token.IsValid(now) {
        return AuthResult(AuthFailureCredentialInvalid, None, [MSG_INVALID]);
      }
      if !IsEmailAllowed(allowedEmails, token.GetEmail()) {
        return AuthResult(AuthFailure, None, [MsgNotAllowed(token.GetEmail())]);
      }
      var linked := CreateOrUpdateUser(policy, env);
      if linked.None? {
        return AuthResult(AuthFailure, None, [MSG_NO_LINK]);
      }
      var rec := linked.value;
      var account := if rec.omekaUserId.Some? then UserById(db.users, rec.omekaUserId.value) else None;
      if account.None? {
        return AuthResult(AuthFailure, None, [MSG_NO_USER]);
      } else if !account.value.active {
        return AuthResult(AuthFailure, rec.omekaUserId, [MSG_INACTIVE]);
      }
      result := AuthResult(AuthSuccess, rec.omekaUserId, []);
    }
  }
}
