/**
 * The HarvardKeyUser record: one external identity and the Omeka account it is linked to.
 * Saving follows the active-record rule: a record without a primary key is inserted,
 * one with a key is updated by it.
 */
module HarvardKeyUsers {
  import opened Wrappers
  import opened Php
  import opened Directory

  const USERNAME_PREFIX: string := "HarvardKeyUser"

  /** A nullable id column holds a usable id: it is not NULL and not 0. */
  predicate IdTruthy(o: Option<nat>) {
    o.Some? && o.value != 0
  }

  /** A nullable integer column as a PHP value. */
  function IdValue(o: Option<nat>): (v: Value)
    ensures v.Null? || v.Int?
  {
    if o.Some? then Int(o.value) else Null
  }

  /** The username generated from a row id; an unsaved record (id NULL) interpolates as "". */
  function Username(id: Option<nat>): (r: string)
    ensures |USERNAME_PREFIX| <= |r| && r[..|USERNAME_PREFIX|] == USERNAME_PREFIX
    ensures r[|USERNAME_PREFIX|..] == AsString(IdValue(id))
  {
    USERNAME_PREFIX + AsString(IdValue(id))
  }

  /** Distinct saved rows get distinct usernames. */
  lemma UsernamesDistinct(a: nat, b: nat)
    requires a != b
    ensures Username(Some(a)) != Username(Some(b))
  {
    var ua, ub := Username(Some(a)), Username(Some(b));
    if ua == ub {
      assert ua[|USERNAME_PREFIX|..] == ub[|USERNAME_PREFIX|..];
      IntToStringInjective(a, b);
    }
  }

  /** The outcome of save(): insert a record without a key (stamping `inserted`), update one
      with a key. None when the database refuses the write. */
  function Persist(t: Tables, rec: Link, isNew: bool, stamp: string, ok: bool): (r: Option<(Link, Tables)>)
    ensures isNew ==> (r.None? <==> !ok || exists l :: l in t.links && l.harvardKeyId == rec.harvardKeyId)
    ensures !isNew ==> (r.None? <==> !ok || exists l :: l in t.links && l.id != rec.id && l.harvardKeyId == rec.harvardKeyId)
    ensures r.Some? && isNew ==> r.value.0 == rec.(id := t.nextLinkId, inserted := stamp)
                                 && r.value.1 == t.(links := t.links + [r.value.0], nextLinkId := t.nextLinkId + 1)
    ensures r.Some? && !isNew ==> r.value.0 == rec && r.value.1 == t.(links := ReplaceLink(t.links, rec))
    ensures r.Some? ==> (r.value.0 in r.value.1.links <==> isNew || exists l :: l in t.links && l.id == rec.id)
  {
    if isNew then InsertLink(t, rec.(inserted := stamp), ok)
    else match UpdateLink(t, rec, ok)
      case None => None
      case Some(n) => Some((rec, n))
  }

  lemma PersistKeepsValid(t: Tables, rec: Link, isNew: bool, stamp: string, ok: bool)
    requires TablesValid(t)
    ensures var r := Persist(t, rec, isNew, stamp, ok); r.Some? ==> TablesValid(r.value.1)
  {
    if isNew {
      InsertLinkKeepsValid(t, rec.(inserted := stamp), ok);
    } else {
      UpdateLinkKeepsValid(t, rec, ok);
    }
  }

  class HarvardKeyUser {
    var id: Option<nat>
    var harvardKeyId: string
    var omekaUserId: Option<nat>
    var omekaUserCreated: Option<bool>
    var inserted: string

    /** The record's columns as a table row; an unsaved record shows id 0. */
    function Fields(): Link
      reads this
    {
      Link(id.GetOr(0), harvardKeyId, omekaUserId, omekaUserCreated, inserted)
    }

    /** `new HarvardKeyUser`: every column NULL. */
    constructor ()
      ensures id.None? && Fields() == Link(0, "", None, None, "")
    {
      id, harvardKeyId, omekaUserId, omekaUserCreated, inserted := None, "", None, None, "";
    }

    /** A record loaded from a table row. */
    constructor FromRow(row: Link)
      ensures id == Some(row.id) && Fields() == row
    {
      id, harvardKeyId, omekaUserId, omekaUserCreated, inserted := Some(row.id), row.harvardKeyId, row.omekaUserId, row.omekaUserCreated, row.inserted;
    }

    /** isLinked: the (bool) cast of omeka_user_id. */
    function IsLinked(): (r: bool)
      reads this
      ensures r <==> IdTruthy(omekaUserId)
    {
      Truthy(IdValue(omekaUserId))
    }

    /** getUsername: the prefix followed by the row id. */
    function GetUsername(): (r: string)
      reads this
      ensures r == Username(id)
    {
      Username(id)
    }

    /** save(): insert or update, keeping the object and the table in step. */
    method Save(db: Db, stamp: string, ok: bool) returns (saved: bool)
      modifies this, db
      ensures var r := Persist(old(db.Contents()), old(Fields()), old(id).None?, stamp, ok);
        && (saved <==> r.Some?)
        && (r.Some? ==> id.Some? && Fields() == r.value.0 && db.Contents() == r.value.1)
        && (r.None? ==> id == old(id) && Fields() == old(Fields()) && db.Contents() == old(db.Contents()))
    {
      if id.None? {
        var row := db.InsertLinkRow(Fields().(inserted := stamp), ok);
        if row.Some? {
          id, inserted := Some(row.value.id), stamp;
        }
        saved := row.Some?;
      } else {
        saved := db.UpdateLinkRow(Fields(), ok);
      }
    }

    /** saveIdentity: sets harvard_key_id (whether or not the save then succeeds) and saves. */
    method SaveIdentity(db: Db, key: string, stamp: string, ok: bool) returns (saved: bool)
      modifies this, db
      ensures var rec := old(Fields()).(harvardKeyId := key);
        var r := Persist(old(db.Contents()), rec, old(id).None?, stamp, ok);
        && (saved <==> r.Some?)
        && (r.Some? ==> id.Some? && Fields() == r.value.0 && db.Contents() == r.value.1)
        && (r.None? ==> id == old(id) && Fields() == rec && db.Contents() == old(db.Contents()))
    {
      harvardKeyId := key;
      saved := Save(db, stamp, ok);
    }

    /** linkTo: sets omeka_user_id and omeka_user_created (stored as 1 or 0) and saves. */
    method LinkTo(db: Db, userId: nat, created: bool, stamp: string, ok: bool) returns (saved: bool)
      modifies this, db
      ensures var rec := old(Fields()).(omekaUserId := Some(userId), omekaUserCreated := Some(created));
        var r := Persist(old(db.Contents()), rec, old(id).None?, stamp, ok);
        && (saved <==> r.Some?)
        && harvardKeyId == old(harvardKeyId)
        && (r.Some? ==> id.Some? && Fields() == r.value.0 && db.Contents() == r.value.1)
        && (r.None? ==> id == old(id) && Fields() == rec && db.Contents() == old(db.Contents()))
    {
      omekaUserId, omekaUserCreated := Some(userId), Some(created);
      saved := Save(db, stamp, ok);
    }

    /** linkToNew: a link to an account created for this identity (created = 1). */
    method LinkToNew(db: Db, userId: nat, stamp: string, ok: bool) returns (saved: bool)
      modifies this, db
      ensures var rec := old(Fields()).(omekaUserId := Some(userId), omekaUserCreated := Some(true));
        var r := Persist(old(db.Contents()), rec, old(id).None?, stamp, ok);
        && (saved <==> r.Some?)
        && (r.Some? ==> id.Some? && Fields() == r.value.0 && db.Contents() == r.value.1)
        && (r.None? ==> id == old(id) && Fields() == rec && db.Contents() == old(db.Contents()))
    {
      saved := LinkTo(db, userId, true, stamp, ok);
    }

    /** linkToExisting: a link to an account that already existed (created = 0). */
    method LinkToExisting(db: Db, userId: nat, stamp: string, ok: bool) returns (saved: bool)
      modifies this, db
      ensures var rec := old(Fields()).(omekaUserId := Some(userId), omekaUserCreated := Some(false));
        var r := Persist(old(db.Contents()), rec, old(id).None?, stamp, ok);
        && (saved <==> r.Some?)
        && (r.Some? ==> id.Some? && Fields() == r.value.0 && db.Contents() == r.value.1)
        && (r.None? ==> id == old(id) && Fields() == rec && db.Contents() == old(db.Contents()))
    {
      saved := LinkTo(db, userId, false, stamp, ok);
    }
  }

  /** findByHarvardKeyId: the record holding that key, loaded into a new object. */
  method FindByHarvardKeyId(db: Db, key: string) returns (r: Option<HarvardKeyUser>)
    ensures var row := LinkByHarvardKeyId(db.Contents().links, key);
      && (r.Some? <==> row.Some?)
      && (r.Some? ==> fresh(r.value) && r.value.id == Some(row.value.id) && r.value.Fields() == row.value)
  {
    var row := LinkByHarvardKeyId(db.links, key);
    if row.None? {
      return None;
    }
    var u := new HarvardKeyUser.FromRow(row.value);
    r := Some(u);
  }

  /** findByOmekaUserId: the first record linked to that account, loaded into a new object. */
  method FindByOmekaUserId(db: Db, userId: nat) returns (r: Option<HarvardKeyUser>)
    ensures var row := LinkByOmekaUserId(db.Contents().links, userId);
      && (r.Some? <==> row.Some?)
      && (r.Some? ==> fresh(r.value) && r.value.id == Some(row.value.id) && r.value.Fields() == row.value)
  {
    var row := LinkByOmekaUserId(db.links, userId);
    if row.None? {
      return None;
    }
    var u := new HarvardKeyUser.FromRow(row.value);
    r := Some(u);
  }

  /** With the key unique, the record found is the one row of the table that holds the key. */
  lemma FoundRecordIsTheRow(t: Tables, l: Link)
    requires TablesValid(t) && l in t.links
    ensures LinkByHarvardKeyId(t.links, l.harvardKeyId) == Some(l)
    ensures forall m :: m in t.links && m.harvardKeyId == l.harvardKeyId ==> m == l
  {
    LinkLookupFindsRow(t, l);
    forall m | m in t.links && m.harvardKeyId == l.harvardKeyId ensures m == l {
      LinkLookupFindsRow(t, m);
    }
  }
}
