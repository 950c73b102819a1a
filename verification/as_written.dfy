/**
 * authenticate as the adapter is written: _createOrUpdateUser asks the link record
 * isLinkedToUser(), a method HarvardKeyUser does not have (it has isLinked), so the call
 * throws as soon as a link record is in hand. The row inserted for a new key stays.
 * The rest of the model uses the corrected adapter of Reconciliation.
 */
module AsWrittenAdapter {
  import opened Wrappers
  import opened Php
  import opened Directory
  import opened Reconciliation

  const ERR_UNDEFINED_METHOD: string := "Method isLinkedToUser does not exist"

  datatype Attempt = Answered(verdict: Verdict) | Threw(error: string, tables: Tables)

  /** authenticate as written: the two gates, then the link record, then the throw. */
  function AuthenticateAsWritten(t: Tables, tokenValid: bool, who: Identity, allowedEmails: string, policy: Policy, env: Env): (a: Attempt)
    ensures a.Threw? <==> tokenValid && IsEmailAllowed(allowedEmails, who.email) && FindOrCreateLink(t, AsString(who.id), env).Some?
    ensures a.Threw? ==> a.error == ERR_UNDEFINED_METHOD && a.tables == FindOrCreateLink(t, AsString(who.id), env).value.1
    ensures a.Answered? ==> a.verdict.tables == t && a.verdict.result.identity.None?
  {
    if !tokenValid then Answered(Verdict(AuthResult(AuthFailureCredentialInvalid, None, [MSG_INVALID]), t))
    else if !IsEmailAllowed(allowedEmails, who.email) then Answered(Verdict(AuthResult(AuthFailure, None, [MsgNotAllowed(who.email)]), t))
    else match FindOrCreateLink(t, AsString(who.id), env)
      case None => Answered(Verdict(AuthResult(AuthFailure, None, [MSG_NO_LINK]), t))
      case Some((_, t1)) => Threw(ERR_UNDEFINED_METHOD, t1)
  }

  /** As written, nobody ever logs in: every attempt either fails or throws. */
  lemma AsWrittenNobodyLogsIn(t: Tables, tokenValid: bool, who: Identity, allowedEmails: string, policy: Policy, env: Env)
    ensures var a := AuthenticateAsWritten(t, tokenValid, who, allowedEmails, policy, env);
      a.Answered? ==> a.verdict.result.code != AuthSuccess
  {
  }

  /** Where the written adapter does answer, it answers as the corrected one does. */
  lemma AsWrittenAgreesBeforeTheCall(t: Tables, tokenValid: bool, who: Identity, allowedEmails: string, policy: Policy, env: Env)
    ensures var a := AuthenticateAsWritten(t, tokenValid, who, allowedEmails, policy, env);
      a.Answered? ==> a.verdict == Reconciliation.Authenticate(t, tokenValid, who, allowedEmails, policy, env)
  {
  }

  const EMPTY: Tables := Tables([], [], 1, 1)
  const NEWCOMER: Identity := Identity(Str("hk1"), Null, Null)
  const ALL_OK: Env := Env(true, true, true, "2000-01-01 00:00:00")
  const VIEWERS: Policy := Policy({}, GUEST_ROLE)

  /** The first login of a new key on an empty site with no whitelist: the written adapter
      throws after inserting the link row, the corrected one creates the account and logs
      the user in as account 1. */
  lemma FirstLoginThrowsAsWritten()
    ensures AuthenticateAsWritten(EMPTY, true, NEWCOMER, "", VIEWERS, ALL_OK).Threw?
    ensures var v := Reconciliation.Authenticate(EMPTY, true, NEWCOMER, "", VIEWERS, ALL_OK);
      v.result.code == AuthSuccess && v.result.identity == Some(1)
  {
    assert LinkByHarvardKeyId(EMPTY.links, "hk1").None?;
    OtherwiseAccountIsCreated(EMPTY, NEWCOMER, VIEWERS, ALL_OK);
    var o := Reconcile(EMPTY, NEWCOMER, VIEWERS, ALL_OK);
    ReconcileFacts(EMPTY, NEWCOMER, VIEWERS, ALL_OK);
    assert UserById(o.tables.users, 1).Some?;
    assert UserById(o.tables.users, 1).value.active;
  }
}
