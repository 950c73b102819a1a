/**
 * The two tables the plugin reads and writes, held in memory: the HarvardKeyUser link
 * table (one row per external identity) and Omeka's User table. Rows are kept in
 * primary-key order, as findAll returns them; each table has an auto-increment counter.
 * A database write that fails is an `ok` flag supplied by the caller.
 */
module Directory {
  import opened Wrappers

  /** A row of Omeka's User table, with the columns the plugin sets or reads. */
  datatype User = User(id: nat, username: string, name: string, email: string, role: string, active: bool, password: string)

  /** A row of the HarvardKeyUser table. `omekaUserCreated` is NULL until the row is linked,
      then 1 (Some(true)) or 0 (Some(false)). */
  datatype Link = Link(id: nat, harvardKeyId: string, omekaUserId: Option<nat>, omekaUserCreated: Option<bool>, inserted: string)

  datatype Tables = Tables(links: seq<Link>, users: seq<User>, nextLinkId: nat, nextUserId: nat)

  /** The table invariants: auto-increment counters start at 1, primary keys are positive,
      below the counter and increasing in row order, and harvard_key_id is unique (the
      UNIQUE KEY of the link table). */
  ghost predicate TablesValid(t: Tables) {
    && 0 < t.nextLinkId && 0 < t.nextUserId
    && (forall i, j :: 0 <= i < j < |t.links| ==> t.links[i].id < t.links[j].id)
    && (forall i :: 0 <= i < |t.links| ==> 0 < t.links[i].id < t.nextLinkId)
    && (forall i, j :: 0 <= i < j < |t.links| ==> t.links[i].harvardKeyId != t.links[j].harvardKeyId)
    && (forall i, j :: 0 <= i < j < |t.users| ==> t.users[i].id < t.users[j].id)
    && (forall i :: 0 <= i < |t.users| ==> 0 < t.users[i].id < t.nextUserId)
  }

  /** The position of the first element that satisfies p. */
  function FirstIndex<T>(s: seq<T>, p: T -> bool): (r: Option<nat>)
    ensures r.Some? ==> r.value < |s| && p(s[r.value]) && forall j :: 0 <= j < r.value ==> !p(s[j])
    ensures r.None? ==> forall j :: 0 <= j < |s| ==> !p(s[j])
  {
    if s == [] then None
    else if p(s[0]) then Some(0)
    else match FirstIndex(s[1..], p)
      case None => None
      case Some(k) => Some(k + 1)
  }

  /** findBySql('harvard_key_id = ?', ..., true): the first row with that key, if any. */
  function LinkByHarvardKeyId(links: seq<Link>, harvardKeyId: string): (r: Option<Link>)
    ensures r.Some? ==> r.value in links && r.value.harvardKeyId == harvardKeyId
    ensures r.None? <==> forall l :: l in links ==> l.harvardKeyId != harvardKeyId
  {
    var k := FirstIndex(links, (l: Link) => l.harvardKeyId == harvardKeyId);
    if k.Some? then Some(links[k.value]) else None
  }

  /** findBySql('omeka_user_id = ?', ..., true): the first row linked to that user, if any. */
  function LinkByOmekaUserId(links: seq<Link>, omekaUserId: nat): (r: Option<Link>)
    ensures r.Some? ==> r.value in links && r.value.omekaUserId == Some(omekaUserId)
    ensures r.None? <==> forall l :: l in links ==> l.omekaUserId != Some(omekaUserId)
  {
    var k := FirstIndex(links, (l: Link) => l.omekaUserId == Some(omekaUserId));
    if k.Some? then Some(links[k.value]) else None
  }

  /** findBySql('id = ?', ..., true) on the User table. */
  function UserById(users: seq<User>, id: nat): (r: Option<User>)
    ensures r.Some? ==> r.value in users && r.value.id == id
    ensures r.None? <==> forall u :: u in users ==> u.id != id
  {
    var k := FirstIndex(users, (u: User) => u.id == id);
    if k.Some? then Some(users[k.value]) else None
  }

  /** findBySql('email = ?', ..., true) on the User table. */
  function UserByEmail(users: seq<User>, email: string): (r: Option<User>)
    ensures r.Some? ==> r.value in users && r.value.email == email
    ensures r.None? <==> forall u :: u in users ==> u.email != email
  {
    var k := FirstIndex(users, (u: User) => u.email == email);
    if k.Some? then Some(users[k.value]) else None
  }

  /** INSERT into the link table: the row gets the next id. It fails when the database
      fails (`ok` false) or when the key is already taken (the UNIQUE KEY). */
  function InsertLink(t: Tables, fields: Link, ok: bool): (r: Option<(Link, Tables)>)
    ensures r.Some? <==> ok && forall l :: l in t.links ==> l.harvardKeyId != fields.harvardKeyId
    ensures r.Some? ==> r.value.0 == fields.(id := t.nextLinkId)
                        && r.value.1 == t.(links := t.links + [r.value.0], nextLinkId := t.nextLinkId + 1)
  {
    if !ok || LinkByHarvardKeyId(t.links, fields.harvardKeyId).Some? then None
    else
      var row := fields.(id := t.nextLinkId);
      Some((row, t.(links := t.links + [row], nextLinkId := t.nextLinkId + 1)))
  }

  /** The row with the same id is replaced, every other row is kept. */
  function ReplaceLink(links: seq<Link>, row: Link): (r: seq<Link>)
    ensures |r| == |links| && forall i :: 0 <= i < |links| ==> r[i].id == links[i].id
    ensures forall i :: 0 <= i < |links| && links[i].id != row.id ==> r[i] == links[i]
    ensures forall x :: x in r && x.id == row.id ==> x == row
    ensures row in r <==> exists l :: l in links && l.id == row.id
    ensures forall x: Link :: x.id != row.id ==> (x in r <==> x in links)
  {
    seq(|links|, i requires 0 <= i < |links| => if links[i].id == row.id then row else links[i])
  }

  /** UPDATE of a link row by primary key. It fails when the database fails or when another
      row already holds the key. */
  function UpdateLink(t: Tables, row: Link, ok: bool): (r: Option<Tables>)
    ensures r.Some? <==> ok && forall l :: l in t.links && l.id != row.id ==> l.harvardKeyId != row.harvardKeyId
    ensures r.Some? ==> r.value == t.(links := ReplaceLink(t.links, row))
  {
    var k := FirstIndex(t.links, (l: Link) => l.id != row.id && l.harvardKeyId == row.harvardKeyId);
    if !ok || k.Some? then None
    else Some(t.(links := ReplaceLink(t.links, row)))
  }

  /** INSERT into the User table: the row gets the next id, unless the database fails. */
  function InsertUser(t: Tables, fields: User, ok: bool): Option<(nat, Tables)> {
    if !ok then None
    else Some((t.nextUserId, t.(users := t.users + [fields.(id := t.nextUserId)], nextUserId := t.nextUserId + 1)))
  }

  /** The row with the same id is replaced, every other row is kept. */
  function ReplaceUser(users: seq<User>, u: User): (r: seq<User>)
    ensures |r| == |users| && forall i :: 0 <= i < |users| ==> r[i].id == users[i].id
    ensures forall i :: 0 <= i < |users| && users[i].id != u.id ==> r[i] == users[i]
    ensures forall x :: x in r && x.id == u.id ==> x == u
    ensures u in r <==> exists v :: v in users && v.id == u.id
    ensures forall x: User :: x.id != u.id ==> (x in r <==> x in users)
  {
    seq(|users|, i requires 0 <= i < |users| => if users[i].id == u.id then u else users[i])
  }

  function UpdateUser(t: Tables, u: User): Tables {
    t.(users := ReplaceUser(t.users, u))
  }

  // ---------------------------------------------------------------- invariants

  lemma InsertLinkKeepsValid(t: Tables, fields: Link, ok: bool)
    requires TablesValid(t)
    ensures var r := InsertLink(t, fields, ok); r.Some? ==> TablesValid(r.value.1)
  {
    var r := InsertLink(t, fields, ok);
    if r.Some? {
      var n := r.value.1;
      assert forall i :: 0 <= i < |t.links| ==> n.links[i] == t.links[i];
      forall i | 0 <= i < |t.links| ensures t.links[i].harvardKeyId != fields.harvardKeyId {
        assert t.links[i] in t.links;
      }
    }
  }

  lemma UpdateLinkKeepsValid(t: Tables, row: Link, ok: bool)
    requires TablesValid(t)
    ensures var r := UpdateLink(t, row, ok); r.Some? ==> TablesValid(r.value)
  {
    var r := UpdateLink(t, row, ok);
    if r.Some? {
      var n := r.value;
      forall i | 0 <= i < |t.links|
        ensures n.links[i].id == t.links[i].id
        ensures t.links[i].id != row.id ==> t.links[i].harvardKeyId != row.harvardKeyId
      {
        assert t.links[i] in t.links;
      }
    }
  }

  lemma InsertUserKeepsValid(t: Tables, fields: User, ok: bool)
    requires TablesValid(t)
    ensures var r := InsertUser(t, fields, ok);
      r.Some? ==> TablesValid(r.value.1) && r.value.0 > 0
  {
  }

  lemma UpdateUserKeepsValid(t: Tables, u: User)
    requires TablesValid(t)
    ensures TablesValid(UpdateUser(t, u))
  {
    var n := UpdateUser(t, u);
    assert forall i :: 0 <= i < |t.users| ==> n.users[i].id == t.users[i].id;
  }

  /** Because harvard_key_id is unique, the lookup finds the one row that has it. */
  lemma LinkLookupFindsRow(t: Tables, l: Link)
    requires TablesValid(t) && l in t.links
    ensures LinkByHarvardKeyId(t.links, l.harvardKeyId) == Some(l)
  {
    var k := FirstIndex(t.links, (x: Link) => x.harvardKeyId == l.harvardKeyId);
    var i :| 0 <= i < |t.links| && t.links[i] == l;
    assert k.Some?;
    assert k.value == i;
  }

  /** Because user ids are unique, the lookup by id finds the one row that has it. */
  lemma UserLookupFindsRow(t: Tables, u: User)
    requires TablesValid(t) && u in t.users
    ensures UserById(t.users, u.id) == Some(u)
  {
    var k := FirstIndex(t.users, (x: User) => x.id == u.id);
    var i :| 0 <= i < |t.users| && t.users[i] == u;
    assert k.Some?;
    assert k.value == i;
  }

  /** An update of a stored record whose key is its row's key succeeds unless the database
      fails; the record then is the row the key finds, and nothing else changes. */
  lemma UpdateOfStoredRecord(t: Tables, l: Link, rec: Link, ok: bool)
    requires TablesValid(t) && l in t.links && rec.id == l.id && rec.harvardKeyId == l.harvardKeyId
    ensures var r := UpdateLink(t, rec, ok);
      && (r.Some? <==> ok)
      && (r.Some? ==> TablesValid(r.value) && rec in r.value.links
                      && LinkByHarvardKeyId(r.value.links, rec.harvardKeyId) == Some(rec))
  {
    forall m | m in t.links && m.id != rec.id ensures m.harvardKeyId != rec.harvardKeyId {
      if m.harvardKeyId == rec.harvardKeyId {
        LinkLookupFindsRow(t, m);
        LinkLookupFindsRow(t, l);
      }
    }
    var r := UpdateLink(t, rec, ok);
    if r.Some? {
      UpdateLinkKeepsValid(t, rec, ok);
      var i :| 0 <= i < |t.links| && t.links[i] == l;
      assert r.value.links[i] == rec;
      LinkLookupFindsRow(r.value, rec);
    }
  }

  /** Updating a stored user replaces that row: the lookup by its id then finds the update. */
  lemma UpdateOfStoredUser(t: Tables, old_u: User, u: User)
    requires TablesValid(t) && old_u in t.users && u.id == old_u.id
    ensures var n := UpdateUser(t, u);
      && TablesValid(n) && n.links == t.links && |n.users| == |t.users| && n.nextUserId == t.nextUserId
      && UserById(n.users, u.id) == Some(u)
  {
    var n := UpdateUser(t, u);
    UpdateUserKeepsValid(t, u);
    var i :| 0 <= i < |t.users| && t.users[i] == old_u;
    assert n.users[i] == u;
    UserLookupFindsRow(n, u);
  }

  /** Updating a user keeps every id present, so a lookup by id that succeeded still does. */
  lemma UpdateUserKeepsIds(t: Tables, u: User, id: nat)
    requires UserById(t.users, id).Some?
    ensures UserById(UpdateUser(t, u).users, id).Some?
  {
    var n := UpdateUser(t, u);
    var v := UserById(t.users, id).value;
    var i :| 0 <= i < |t.users| && t.users[i] == v;
    assert n.users[i].id == id;
    assert n.users[i] in n.users;
  }

  /** The database connection: the two tables as fields that its operations reassign. */
  class Db {
    var links: seq<Link>
    var users: seq<User>
    var nextLinkId: nat
    var nextUserId: nat

    function Contents(): Tables
      reads this
    {
      Tables(links, users, nextLinkId, nextUserId)
    }

    ghost predicate Valid()
      reads this
    {
      TablesValid(Contents())
    }

    constructor (t: Tables)
      ensures Contents() == t
    {
      links, users, nextLinkId, nextUserId := t.links, t.users, t.nextLinkId, t.nextUserId;
    }

    method InsertLinkRow(fields: Link, ok: bool) returns (row: Option<Link>)
      modifies this
      ensures var r := InsertLink(old(Contents()), fields, ok);
        && (row.Some? <==> r.Some?)
        && (r.Some? ==> row.value == r.value.0 && Contents() == r.value.1)
        && (r.None? ==> Contents() == old(Contents()))
    {
      var found := LinkByHarvardKeyId(links, fields.harvardKeyId);
      if !ok || found.Some? {
        return None;
      }
      var l := fields.(id := nextLinkId);
      links := links + [l];
      nextLinkId := nextLinkId + 1;
      row := Some(l);
    }

    method UpdateLinkRow(row: Link, ok: bool) returns (saved: bool)
      modifies this
      ensures var r := UpdateLink(old(Contents()), row, ok);
        && (saved <==> r.Some?)
        && Contents() == (if r.Some? then r.value else old(Contents()))
    {
      var r := UpdateLink(Contents(), row, ok);
      if r.Some? {
        links := r.value.links;
      }
      saved := r.Some?;
    }

    method InsertUserRow(fields: User, ok: bool) returns (id: Option<nat>)
      modifies this
      ensures var r := InsertUser(old(Contents()), fields, ok);
        && (id.Some? <==> r.Some?)
        && (r.Some? ==> id.value == r.value.0 && Contents() == r.value.1)
        && (r.None? ==> Contents() == old(Contents()))
    {
      if !ok {
        return None;
      }
      users := users + [fields.(id := nextUserId)];
      id := Some(nextUserId);
      nextUserId := nextUserId + 1;
    }

    method UpdateUserRow(u: User)
      modifies this
      ensures Contents() == UpdateUser(old(Contents()), u)
    {
      users := ReplaceUser(users, u);
    }
  }
}
