/**
 * The administration pages for link records: the super-user gate, the listing of link
 * records joined with their accounts' emails and sorted by a column, and the batch
 * deletion of the accounts the plugin created together with their links.
 */
module Records {
  import opened Wrappers
  import opened Php
  import opened Directory

  const MSG_FORBIDDEN: string := "You do not have permission to access this pag (requires super user access)."
  const SUPER_ROLE: string := "super"

  /** preDispatch: only a current user whose role is "super" passes; anyone else, or no
      current user, gets the 403 error. */
  function PreDispatch(currentRole: Option<string>): (error: Option<string>)
    ensures error.None? <==> currentRole == Some(SUPER_ROLE)
    ensures error.Some? ==> error.value == MSG_FORBIDDEN
  {
    if currentRole == Some(SUPER_ROLE) then None else Some(MSG_FORBIDDEN)
  }

  // ------------------------------------------------------------ generic filtering

  /** The elements of s that satisfy p, in their order. */
  function Filter<T(!new)>(s: seq<T>, p: T -> bool): (r: seq<T>)
    ensures |r| <= |s|
    ensures forall x :: x in r <==> x in s && p(x)
  {
    if s == [] then []
    else Filter(s[..|s| - 1], p) + (if p(s[|s| - 1]) then [s[|s| - 1]] else [])
  }

  /** Filtering keeps a strictly increasing key strictly increasing. */
  lemma {:induction false} FilterKeepsIncreasing<T(!new)>(s: seq<T>, p: T -> bool, key: T -> int)
    requires forall i, j :: 0 <= i < j < |s| ==> key(s[i]) < key(s[j])
    ensures forall i, j :: 0 <= i < j < |Filter(s, p)| ==> key(Filter(s, p)[i]) < key(Filter(s, p)[j])
  {
    if s != [] {
      var init, last := s[..|s| - 1], s[|s| - 1];
      FilterKeepsIncreasing(init, p, key);
      var ri := Filter(init, p);
      var r := Filter(s, p);
      assert r == ri + (if p(last) then [last] else []);
      forall i, j | 0 <= i < j < |r| ensures key(r[i]) < key(r[j]) {
        if j < |ri| {
          assert r[i] == ri[i] && r[j] == ri[j];
          assert key(ri[i]) < key(ri[j]);
        } else {
          assert r[j] == last;
          assert r[i] == ri[i] && ri[i] in init;
          var k :| 0 <= k < |init| && init[k] == r[i];
          assert s[k] == r[i] && s[|s| - 1] == last;
          assert key(s[k]) < key(s[|s| - 1]);
        }
      }
    }
  }

  /** Filtering keeps a key that is distinct across elements distinct. */
  lemma {:induction false} FilterKeepsDistinct<T(!new), K>(s: seq<T>, p: T -> bool, key: T -> K)
    requires forall i, j :: 0 <= i < j < |s| ==> key(s[i]) != key(s[j])
    ensures forall i, j :: 0 <= i < j < |Filter(s, p)| ==> key(Filter(s, p)[i]) != key(Filter(s, p)[j])
  {
    if s != [] {
      var init := s[..|s| - 1];
      FilterKeepsDistinct(init, p, key);
      var r := Filter(s, p);
      var ri := Filter(init, p);
      forall i, j | 0 <= i < j < |r| ensures key(r[i]) != key(r[j]) {
        if j >= |ri| {
          assert r == ri + [s[|s| - 1]];
          assert r[j] == s[|s| - 1];
          assert r[i] == ri[i] && ri[i] in ri;
          var k :| 0 <= k < |init| && init[k] == r[i];
          assert s[k] == r[i];
        } else {
          assert r[i] == ri[i] && r[j] == ri[j];
        }
      }
    }
  }

  // ------------------------------------------------------------ listing

  /** A link row shown on the pages, with the linked account's email (or null). */
  datatype Record = Record(email: Option<string>, omekaUserCreated: Option<bool>, omekaUserId: Option<nat>,
                           harvardKeyId: string, inserted: string, id: nat)

  /** A link the plugin created an account for (omeka_user_created = 1). Both the listing's
      truthiness test and the delete query's `= 1` pick out exactly these rows. */
  predicate CreatedByPlugin(l: Link) {
    l.omekaUserCreated == Some(true)
  }

  predicate NotCreatedByPlugin(l: Link) {
    !CreatedByPlugin(l)
  }

  /** The option defaults, which the caller's options override key by key (array_merge). */
  const DEFAULT_OPTIONS: map<string, Value> := map["sortby" := Str("email"), "only_created" := Bool(false)]

  function MergeOptions(options: Option<map<string, Value>>): (r: map<string, Value>)
    ensures "sortby" in r && "only_created" in r
    ensures options.Some? ==> forall k :: k in options.value ==> k in r && r[k] == options.value[k]
    ensures forall k :: k in r && (options.None? || k !in options.value) ==> k in DEFAULT_OPTIONS && r[k] == DEFAULT_OPTIONS[k]
  {
    if options.Some? then DEFAULT_OPTIONS + options.value else DEFAULT_OPTIONS
  }

  /** With no options given, the listing is sorted by email and keeps every link. */
  lemma DefaultOptions()
    ensures MergeOptions(None)["sortby"] == Str("email") && !Truthy(MergeOptions(None)["only_created"])
  {
  }

  /** _getOmekaUsersIndexedById: the accounts by id; a later row with the same id wins. */
  function UserIndex(users: seq<User>): (r: map<nat, User>)
    ensures forall id :: id in r <==> exists u :: u in users && u.id == id
    ensures forall id :: id in r ==> r[id] in users && r[id].id == id
  {
    if users == [] then map[]
    else
      var last := users[|users| - 1];
      var init := UserIndex(users[..|users| - 1]);
      assert forall u :: u in users <==> u in users[..|users| - 1] || u == last;
      init[last.id := last]
  }

  /** On valid tables the index agrees with the lookup by id. */
  lemma UserIndexAgreesWithLookup(t: Tables, id: nat)
    requires TablesValid(t)
    ensures var index := UserIndex(t.users);
      && (id in index <==> UserById(t.users, id).Some?)
      && (id in index ==> index[id] == UserById(t.users, id).value)
  {
    var index := UserIndex(t.users);
    if id in index {
      var u := UserById(t.users, id).value;
      var i :| 0 <= i < |t.users| && t.users[i] == index[id];
      var j :| 0 <= j < |t.users| && t.users[j] == u;
      assert i == j;
    }
  }

  /** The record for one link: its columns, and the email of its account when the index has it. */
  function RecordOf(l: Link, index: map<nat, User>): (r: Record)
    ensures r.id == l.id && r.harvardKeyId == l.harvardKeyId && r.inserted == l.inserted
    ensures r.omekaUserId == l.omekaUserId && r.omekaUserCreated == l.omekaUserCreated
    ensures r.email.Some? <==> l.omekaUserId.Some? && l.omekaUserId.value in index
    ensures r.email.Some? ==> r.email.value == index[l.omekaUserId.value].email
  {
    var email := if l.omekaUserId.Some? && l.omekaUserId.value in index then Some(index[l.omekaUserId.value].email) else None;
    Record(email, l.omekaUserCreated, l.omekaUserId, l.harvardKeyId, l.inserted, l.id)
  }

  /** Whether the listing keeps a link: with only_created, just the created ones. */
  predicate Kept(l: Link, onlyCreated: bool) {
    !onlyCreated || CreatedByPlugin(l)
  }

  /** The records the loop of _getRecords appends, one per kept link in table order. */
  function BuildRecords(links: seq<Link>, index: map<nat, User>, onlyCreated: bool): seq<Record> {
    if links == [] then []
    else
      var l := links[|links| - 1];
      BuildRecords(links[..|links| - 1], index, onlyCreated) + (if Kept(l, onlyCreated) then [RecordOf(l, index)] else [])
  }

  /** The links the listing keeps. */
  function KeptLinks(links: seq<Link>, onlyCreated: bool): seq<Link> {
    if onlyCreated then Filter(links, CreatedByPlugin) else links
  }

  /** There is one record per kept link, built from it, in the same order. */
  lemma {:induction false} RecordsFollowKeptLinks(links: seq<Link>, index: map<nat, User>, onlyCreated: bool)
    ensures var rs, ks := BuildRecords(links, index, onlyCreated), KeptLinks(links, onlyCreated);
      |rs| == |ks| && forall k :: 0 <= k < |rs| ==> rs[k] == RecordOf(ks[k], index)
  {
    if links != [] {
      var init := links[..|links| - 1];
      RecordsFollowKeptLinks(init, index, onlyCreated);
      if !onlyCreated {
        assert links == init + [links[|links| - 1]];
      }
    }
  }

  /** A record's sort column: isset($record[$sortby]), with the value as the string the
      database returns. A name that is not a column is never set. */
  function Column(r: Record, name: string): Option<string> {
    if name == "email" then r.email
    else if name == "omeka_user_created" then (if r.omekaUserCreated.Some? then Some(if r.omekaUserCreated.value then "1" else "0") else None)
    else if name == "omeka_user_id" then (if r.omekaUserId.Some? then Some(IntToString(r.omekaUserId.value)) else None)
    else if name == "harvard_key_id" then Some(r.harvardKeyId)
    else if name == "inserted" then Some(r.inserted)
    else if name == "id" then Some(IntToString(r.id))
    else None
  }

  /** The usort comparator: natural order when both records have the column, otherwise the
      difference of the ids. */
  function CompareRecords(a: Record, b: Record, sortby: string, natcmp: (string, string) -> int): (r: int)
    ensures Column(a, sortby).Some? && Column(b, sortby).Some? ==> r == natcmp(Column(a, sortby).value, Column(b, sortby).value)
    ensures Column(a, sortby).None? || Column(b, sortby).None? ==> (r < 0 <==> a.id < b.id) && (r == 0 <==> a.id == b.id)
  {
    var ka, kb := Column(a, sortby), Column(b, sortby);
    if ka.Some? && kb.Some? then natcmp(ka.value, kb.value) else a.id - b.id
  }

  /** strnatcmp never says both a > b and b > a. */
  ghost predicate Antisymmetric(natcmp: (string, string) -> int) {
    forall x, y :: natcmp(x, y) > 0 ==> natcmp(y, x) <= 0
  }

  lemma ComparatorAntisymmetric(a: Record, b: Record, sortby: string, natcmp: (string, string) -> int)
    requires Antisymmetric(natcmp)
    ensures CompareRecords(a, b, sortby, natcmp) > 0 ==> CompareRecords(b, a, sortby, natcmp) <= 0
  {
    var ka, kb := Column(a, sortby), Column(b, sortby);
    if ka.Some? && kb.Some? {
      assert natcmp(ka.value, kb.value) > 0 ==> natcmp(kb.value, ka.value) <= 0;
    }
  }

  /** One step of insertion sort: x moves left past every element that compares above it. */
  function InsertBack(s: seq<Record>, x: Record, sortby: string, natcmp: (string, string) -> int): (r: seq<Record>)
    ensures |r| == |s| + 1
    ensures multiset(r) == multiset(s) + multiset{x}
    ensures r[|r| - 1] == x || (|s| > 0 && r[|r| - 1] == s[|s| - 1])
  {
    if s == [] then [x]
    else if CompareRecords(s[|s| - 1], x, sortby, natcmp) > 0 then
      assert s == s[..|s| - 1] + [s[|s| - 1]];
      InsertBack(s[..|s| - 1], x, sortby, natcmp) + [s[|s| - 1]]
    else s + [x]
  }

  /** usort, as insertion sort. */
  function SortRecords(s: seq<Record>, sortby: string, natcmp: (string, string) -> int): (r: seq<Record>)
    ensures multiset(r) == multiset(s)
  {
    if s == [] then []
    else
      assert s == s[..|s| - 1] + [s[|s| - 1]];
      InsertBack(SortRecords(s[..|s| - 1], sortby, natcmp), s[|s| - 1], sortby, natcmp)
  }

  /** Every record compares at most equal to the next one. */
  ghost predicate AdjacentOrdered(s: seq<Record>, sortby: string, natcmp: (string, string) -> int) {
    forall i :: 0 <= i < |s| - 1 ==> CompareRecords(s[i], s[i + 1], sortby, natcmp) <= 0
  }

  lemma {:induction false} InsertBackOrdered(s: seq<Record>, x: Record, sortby: string, natcmp: (string, string) -> int)
    requires Antisymmetric(natcmp) && AdjacentOrdered(s, sortby, natcmp)
    ensures AdjacentOrdered(InsertBack(s, x, sortby, natcmp), sortby, natcmp)
  {
    if s != [] && CompareRecords(s[|s| - 1], x, sortby, natcmp) > 0 {
      var init, last := s[..|s| - 1], s[|s| - 1];
      InsertBackOrdered(init, x, sortby, natcmp);
      var r' := InsertBack(init, x, sortby, natcmp);
      var r := r' + [last];
      if r'[|r'| - 1] == x {
        ComparatorAntisymmetric(last, x, sortby, natcmp);
      } else {
        assert s[|s| - 2] == init[|init| - 1];
      }
      forall i | 0 <= i < |r| - 1 ensures CompareRecords(r[i], r[i + 1], sortby, natcmp) <= 0 {
        if i < |r'| - 1 {
          assert r[i] == r'[i] && r[i + 1] == r'[i + 1];
        }
      }
    }
  }

  /** The sorted listing is a permutation of the records in which every record compares
      at most equal to the next. */
  lemma {:induction false} SortedRecordsOrdered(s: seq<Record>, sortby: string, natcmp: (string, string) -> int)
    requires Antisymmetric(natcmp)
    ensures var r := SortRecords(s, sortby, natcmp);
      multiset(r) == multiset(s) && AdjacentOrdered(r, sortby, natcmp)
  {
    if s != [] {
      SortedRecordsOrdered(s[..|s| - 1], sortby, natcmp);
      InsertBackOrdered(SortRecords(s[..|s| - 1], sortby, natcmp), s[|s| - 1], sortby, natcmp);
    }
  }

  /** _getRecords as a function of the tables: build, then sort by the chosen column. */
  function Listing(t: Tables, options: Option<map<string, Value>>, natcmp: (string, string) -> int): seq<Record> {
    var opts := MergeOptions(options);
    SortRecords(BuildRecords(t.links, UserIndex(t.users), Truthy(opts["only_created"])), AsString(opts["sortby"]), natcmp)
  }

  /** What the listing holds: exactly one record per kept link, built from that link and
      its account's email. */
  lemma ListingContents(t: Tables, options: Option<map<string, Value>>, natcmp: (string, string) -> int)
    ensures var opts := MergeOptions(options);
      var ks := KeptLinks(t.links, Truthy(opts["only_created"]));
      multiset(Listing(t, options, natcmp)) == multiset(seq(|ks|, k requires 0 <= k < |ks| => RecordOf(ks[k], UserIndex(t.users))))
  {
    var opts := MergeOptions(options);
    var oc := Truthy(opts["only_created"]);
    var ks := KeptLinks(t.links, oc);
    RecordsFollowKeptLinks(t.links, UserIndex(t.users), oc);
    var rs := BuildRecords(t.links, UserIndex(t.users), oc);
    assert rs == seq(|ks|, k requires 0 <= k < |ks| => RecordOf(ks[k], UserIndex(t.users)));
  }

  /** _getOmekaUsersIndexedById. */
  method IndexUsersById(users: seq<User>) returns (index: map<nat, User>)
    ensures index == UserIndex(users)
  {
    index := map[];
    var i := 0;
    while i < |users|
      invariant 0 <= i <= |users|
      invariant index == UserIndex(users[..i])
    {
      assert users[..i + 1][..i] == users[..i];
      index := index[users[i].id := users[i]];
      i := i + 1;
    }
    assert users[..|users|] == users;
  }

  /** The loop of _getRecords: skip links the options exclude, append a record for the rest. */
  method CollectRecords(links: seq<Link>, index: map<nat, User>, onlyCreated: bool) returns (records: seq<Record>)
    ensures records == BuildRecords(links, index, onlyCreated)
  {
    records := [];
    var i := 0;
    while i < |links|
      invariant 0 <= i <= |links|
      invariant records == BuildRecords(links[..i], index, onlyCreated)
    {
      assert links[..i + 1][..i] == links[..i];
      var l := links[i];
      if onlyCreated && !CreatedByPlugin(l) {
        i := i + 1;
        continue;
      }
      var email: Option<string> := None;
      if l.omekaUserId.Some? && l.omekaUserId.value in index {
        email := Some(index[l.omekaUserId.value].email);
      }
      records := records + [Record(email, l.omekaUserCreated, l.omekaUserId, l.harvardKeyId, l.inserted, l.id)];
      i := i + 1;
    }
    assert links[..|links|] == links;
  }

  /** _getRecords. */
  method GetRecords(db: Db, options: Option<map<string, Value>>, natcmp: (string, string) -> int) returns (records: seq<Record>)
    ensures records == Listing(db.Contents(), options, natcmp)
  {
    var opts := MergeOptions(options);
    var index := IndexUsersById(db.users);
    var built := CollectRecords(db.links, index, Truthy(opts["only_created"]));
    records := SortRecords(built, AsString(opts["sortby"]), natcmp);
  }

  // ------------------------------------------------------------ deletion

  /** The accounts referenced by a created link: the ones the first DELETE removes. */
  function CreatedAccountIds(links: seq<Link>): set<nat> {
    set l | l in links && CreatedByPlugin(l) && l.omekaUserId.Some? :: l.omekaUserId.value
  }

  /** The two DELETE queries of deleteAction: accounts referenced by a created link, then
      the created links. */
  function DeleteCreated(t: Tables): (n: Tables)
    ensures n.nextLinkId == t.nextLinkId && n.nextUserId == t.nextUserId
    ensures |n.links| <= |t.links| && |n.users| <= |t.users|
    ensures forall l :: l in n.links ==> l in t.links && !CreatedByPlugin(l)
    ensures forall u :: u in n.users ==> u in t.users
  {
    var doomed := CreatedAccountIds(t.links);
    t.(users := Filter(t.users, (u: User) => u.id !in doomed), links := Filter(t.links, NotCreatedByPlugin))
  }

  /** What survives the deletion: the links not created by the plugin and the accounts no
      created link refers to, all unchanged; nothing else. */
  lemma DeleteCreatedSurvivors(t: Tables)
    ensures var n := DeleteCreated(t);
      && (forall l :: l in n.links <==> l in t.links && !CreatedByPlugin(l))
      && (forall u :: u in n.users <==> u in t.users && u.id !in CreatedAccountIds(t.links))
      && (forall l :: l in t.links && CreatedByPlugin(l) && l.omekaUserId.Some? ==>
            forall u :: u in n.users ==> u.id != l.omekaUserId.value)
      && n.nextLinkId == t.nextLinkId && n.nextUserId == t.nextUserId
  {
  }

  /** The deletion keeps the table invariants. */
  lemma DeleteCreatedKeepsValid(t: Tables)
    requires TablesValid(t)
    ensures TablesValid(DeleteCreated(t))
  {
    var doomed := CreatedAccountIds(t.links);
    var n := DeleteCreated(t);
    FilterKeepsIncreasing(t.links, NotCreatedByPlugin, (l: Link) => l.id);
    FilterKeepsDistinct(t.links, NotCreatedByPlugin, (l: Link) => l.harvardKeyId);
    FilterKeepsIncreasing(t.users, (u: User) => u.id !in doomed, (u: User) => u.id);
    forall i | 0 <= i < |n.links| ensures 0 < n.links[i].id < n.nextLinkId {
      assert n.links[i] in t.links;
    }
    forall i | 0 <= i < |n.users| ensures 0 < n.users[i].id < n.nextUserId {
      assert n.users[i] in t.users;
    }
  }

  function DeletedMessage(total: nat): string {
    "Successfully deleted " + IntToString(total) + " Harvard Key users."
  }

  /** deleteAction: count the created links listed, run both deletes, report the count. */
  method DeleteAction(db: Db, natcmp: (string, string) -> int) returns (total: nat, message: string)
    modifies db
    ensures db.Contents() == DeleteCreated(old(db.Contents()))
    ensures total == |Filter(old(db.links), CreatedByPlugin)|
    ensures message == DeletedMessage(total)
  {
    var records := GetRecords(db, Some(map["only_created" := Bool(true)]), natcmp);
    RecordsFollowKeptLinks(db.links, UserIndex(db.users), true);
    assert MergeOptions(Some(map["only_created" := Bool(true)]))["only_created"] == Bool(true);
    ghost var built := BuildRecords(db.links, UserIndex(db.users), true);
    assert |records| == |multiset(records)| == |multiset(built)| == |built|;
    total := |records|;
    var doomed := CreatedAccountIds(db.links);
    db.users := Filter(db.users, (u: User) => u.id !in doomed);
    db.links := Filter(db.links, NotCreatedByPlugin);
    message := DeletedMessage(total);
  }
}
