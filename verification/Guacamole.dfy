/** pkg/guacamole/config.go over the five tables of database.md. */
module Guacamole {
  import opened Common

  type Id = nat

  /** The columns of guacamole_user that Configure writes. */
  datatype Credentials = Credentials(passwordHash: string, passwordSalt: string)

  datatype UserRow = UserRow(userId: Id, credentials: Credentials)

  /** guacamole_entity is keyed by its unique name, guacamole_user by its unique entity_id.
      guacamole_connection has no key but its id: several connections may have one name. */
  datatype Rows = Rows(
    entity: map<string, Id>,
    user: map<Id, UserRow>,
    connection: map<Id, string>,
    parameter: map<(Id, string), string>,
    permission: set<(Id, Id)>)                 // (entity_id, connection_id)

  /** The AUTO_INCREMENT counters; a rolled back transaction does not give its numbers back. */
  datatype Counters = Counters(entity: Id, user: Id, connection: Id)

  datatype Db = Db(rows: Rows, next: Counters)

  const EMPTY_DB := Db(Rows(map[], map[], map[], map[], {}), Counters(1, 1, 1))

  /** What one call of Configure writes besides the user: the values of its four parameters. */
  datatype Access = Access(hostname: string, username: string, privateKey: string)

  const PARAMETERS: seq<string> := ["hostname", "port", "username", "private-key"]

  function ParameterValue(a: Access, name: string): string {
    if name == "hostname" then a.hostname
    else if name == "port" then "22"
    else if name == "username" then a.username
    else a.privateKey
  }

  function ParameterRows(c: Id, a: Access, names: seq<string>): map<(Id, string), string> {
    map p | p in names :: (c, p) := ParameterValue(a, p)
  }

  function ConnectionName(uuid: UUID): string { uuid + "-ssh" }

  // ---------------------------------------------------------------- the transactions as functions

  function EntityId(db: Db, uuid: UUID): Id {
    if uuid in db.rows.entity then db.rows.entity[uuid] else db.next.entity
  }

  function UserId(db: Db, entity: Id): Id {
    if entity in db.rows.user then db.rows.user[entity].userId else db.next.user
  }

  function Configured(db: Db, uuid: UUID, credentials: Credentials, access: Access): Rows {
    var e := EntityId(db, uuid);
    var c := db.next.connection;
    Rows(
      db.rows.entity[uuid := e],
      db.rows.user[e := UserRow(UserId(db, e), credentials)],
      db.rows.connection[c := ConnectionName(uuid)],
      db.rows.parameter + ParameterRows(c, access, PARAMETERS),
      db.rows.permission + {(e, c)})
  }

  /** The counters after the first n statements of Configure:
      0 password, salt and begin, 1 select, 2 insert entity (if new), 3 user, 4 connection, 5-8 parameters,
      9 permission, 10 commit. The upsert of the user draws a number even when the row exists. */
  function CountersAfter(db: Db, uuid: UUID, n: nat): Counters {
    Counters(
      db.next.entity + (if n > 2 && uuid !in db.rows.entity then 1 else 0),
      db.next.user + (if n > 3 then 1 else 0),
      db.next.connection + (if n > 4 then 1 else 0))
  }

  const CONFIGURE_STATEMENTS: nat := 11

  function AfterConfigure(db: Db, uuid: UUID, credentials: Credentials, access: Access, fault: Fault): Db {
    if StrikesBefore(fault, CONFIGURE_STATEMENTS) then Db(db.rows, CountersAfter(db, uuid, fault.value))
    else Db(Configured(db, uuid, credentials, access), CountersAfter(db, uuid, CONFIGURE_STATEMENTS))
  }

  /** DELETE FROM guacamole_entity WHERE entity_id = e, with its cascades. */
  function DeleteEntity(r: Rows, e: Id): Rows {
    r.(entity := map n | n in r.entity && r.entity[n] != e :: r.entity[n],
       user := r.user - {e},
       permission := set p | p in r.permission && p.0 != e)
  }

  function Permitted(r: Rows): set<Id> { set p | p in r.permission :: p.1 }

  /** Connections of the given name that nobody may use. */
  function Orphans(r: Rows, name: string): set<Id> {
    set c | c in r.connection && r.connection[c] == name && c !in Permitted(r)
  }

  /** DELETE FROM guacamole_connection, with its cascades. */
  function DeleteConnections(r: Rows, gone: set<Id>): Rows {
    r.(connection := r.connection - gone,
       parameter := map k | k in r.parameter && k.0 !in gone :: r.parameter[k],
       permission := set p | p in r.permission && p.1 !in gone)
  }

  const CLEANUP_STATEMENTS: nat := 6

  /** Statements of Cleanup: 0 ping, 1 begin, 2 select, 3 delete entity, 4 delete connections, 5 commit.
      Without an entity it returns after statement 2. */
  predicate CleanupSucceeds(db: Db, uuid: UUID, fault: Fault) {
    !StrikesBefore(fault, if uuid in db.rows.entity then CLEANUP_STATEMENTS else 3)
  }

  function AfterCleanup(db: Db, uuid: UUID, fault: Fault): Db {
    if !CleanupSucceeds(db, uuid, fault) || uuid !in db.rows.entity then db
    else
      var r := DeleteEntity(db.rows, db.rows.entity[uuid]);
      db.(rows := DeleteConnections(r, Orphans(r, ConnectionName(uuid))))
  }

  // ---------------------------------------------------------------- the invariant

  ghost predicate Fresh(db: Db) {
    (forall n :: n in db.rows.entity ==> db.rows.entity[n] < db.next.entity) &&
    (forall e :: e in db.rows.user ==> db.rows.user[e].userId < db.next.user) &&
    (forall c :: c in db.rows.connection ==> c < db.next.connection)
  }

  /** Primary keys that are not map keys here. */
  ghost predicate KeysUnique(r: Rows) {
    (forall m, n :: m in r.entity && n in r.entity && r.entity[m] == r.entity[n] ==> m == n) &&
    (forall d, e :: d in r.user && e in r.user && r.user[d].userId == r.user[e].userId ==> d == e)
  }

  ghost predicate ForeignKeys(r: Rows) {
    (forall e :: e in r.user ==> e in r.entity.Values) &&
    (forall k :: k in r.parameter ==> k.0 in r.connection) &&
    (forall p :: p in r.permission ==> p.0 in r.entity.Values && p.1 in r.connection)
  }

  /** Every entity has its one user, every connection its four parameters and one permission,
      held by the entity whose name plus "-ssh" is the connection's name. */
  ghost predicate Complete(r: Rows) {
    (forall n :: n in r.entity ==> r.entity[n] in r.user) &&
    (forall c, p :: c in r.connection ==> ((c, p) in r.parameter <==> p in PARAMETERS)) &&
    (forall c :: c in r.connection ==> exists n :: OwnsConnection(r, n, c))
  }

  ghost predicate OwnsConnection(r: Rows, n: string, c: Id)
    requires c in r.connection
  {
    n in r.entity && r.connection[c] == ConnectionName(n) &&
    forall e :: (e, c) in r.permission <==> e == r.entity[n]
  }

  ghost predicate Inv(db: Db) {
    Fresh(db) && KeysUnique(db.rows) && ForeignKeys(db.rows) && Complete(db.rows)
  }

  lemma ConnectionNameInjective(m: UUID, n: UUID)
    ensures ConnectionName(m) == ConnectionName(n) ==> m == n
  {
    assert ConnectionName(m)[..|ConnectionName(m)| - 4] == m;
    assert ConnectionName(n)[..|ConnectionName(n)| - 4] == n;
  }

  lemma OwnerIs(r: Rows, n: string, c: Id)
    requires Complete(r) && c in r.connection && r.connection[c] == ConnectionName(n)
    ensures OwnsConnection(r, n, c)
  {
    var m :| OwnsConnection(r, m, c);
    ConnectionNameInjective(m, n);
  }

  lemma ConfigureKeepsInv(db: Db, uuid: UUID, credentials: Credentials, access: Access, fault: Fault)
    requires Inv(db)
    ensures Inv(AfterConfigure(db, uuid, credentials, access, fault))
  {
    if !StrikesBefore(fault, CONFIGURE_STATEMENTS) {
      ConfigureKeepsFresh(db, uuid, credentials, access, fault);
      ConfigureKeepsKeys(db, uuid, credentials, access);
      ConfigureKeepsForeignKeys(db, uuid, credentials, access);
      ConfigureKeepsComplete(db, uuid, credentials, access);
    }
  }

  lemma ConfigureKeepsFresh(db: Db, uuid: UUID, credentials: Credentials, access: Access, fault: Fault)
    requires Inv(db)
    ensures Fresh(AfterConfigure(db, uuid, credentials, access, fault))
  {
  }

  lemma ConfigureKeepsKeys(db: Db, uuid: UUID, credentials: Credentials, access: Access)
    requires Inv(db)
    ensures KeysUnique(Configured(db, uuid, credentials, access))
  {
    var r, r' := db.rows, Configured(db, uuid, credentials, access);
    var e := EntityId(db, uuid);
    forall m, n | m in r'.entity && n in r'.entity && r'.entity[m] == r'.entity[n] ensures m == n {
      assert m != uuid ==> r'.entity[m] == r.entity[m];
      assert n != uuid ==> r'.entity[n] == r.entity[n];
    }
    forall c, d | c in r'.user && d in r'.user && r'.user[c].userId == r'.user[d].userId ensures c == d {
      assert c != e ==> r'.user[c] == r.user[c];
      assert d != e ==> r'.user[d] == r.user[d];
    }
  }

  lemma ConfigureKeepsForeignKeys(db: Db, uuid: UUID, credentials: Credentials, access: Access)
    requires Inv(db)
    ensures ForeignKeys(Configured(db, uuid, credentials, access))
  {
    var r, r' := db.rows, Configured(db, uuid, credentials, access);
    forall e | e in r.entity.Values ensures e in r'.entity.Values {
      var n :| n in r.entity && r.entity[n] == e;
      assert r'.entity[n] == e;
    }
    assert r'.entity[uuid] in r'.entity.Values;
  }

  lemma ConfigureKeepsComplete(db: Db, uuid: UUID, credentials: Credentials, access: Access)
    requires Inv(db)
    ensures Complete(Configured(db, uuid, credentials, access))
  {
    var r, r' := db.rows, Configured(db, uuid, credentials, access);
    ConfigureKeepsParameters(db, uuid, credentials, access);
    forall d | d in r'.connection ensures exists n :: OwnsConnection(r', n, d) {
      var n := ConfigureKeepsOwner(db, uuid, credentials, access, d);
    }
  }

  lemma ConfigureKeepsParameters(db: Db, uuid: UUID, credentials: Credentials, access: Access)
    requires Inv(db)
    ensures var r' := Configured(db, uuid, credentials, access);
            forall c, p :: c in r'.connection ==> ((c, p) in r'.parameter <==> p in PARAMETERS)
  {
    var r, r' := db.rows, Configured(db, uuid, credentials, access);
    forall c, p | c in r'.connection ensures (c, p) in r'.parameter <==> p in PARAMETERS {
      assert (c, p) in ParameterRows(db.next.connection, access, PARAMETERS) <==>
        c == db.next.connection && p in PARAMETERS;
      assert (c, p) in r.parameter ==> c in r.connection;
    }
  }

  lemma ConfigureKeepsOwner(db: Db, uuid: UUID, credentials: Credentials, access: Access, d: Id) returns (n: string)
    requires Inv(db) && d in Configured(db, uuid, credentials, access).connection
    ensures OwnsConnection(Configured(db, uuid, credentials, access), n, d)
  {
    if d == db.next.connection {
      n := uuid;
    } else {
      n :| OwnsConnection(db.rows, n, d);
    }
  }

  /** In a database satisfying the invariant the orphans left by DeleteEntity are all connections of the VM. */
  lemma OrphansAreAll(r: Rows, uuid: UUID)
    requires KeysUnique(r) && ForeignKeys(r) && Complete(r) && uuid in r.entity
    ensures var r1 := DeleteEntity(r, r.entity[uuid]);
            Orphans(r1, ConnectionName(uuid)) ==
            set c | c in r.connection && r.connection[c] == ConnectionName(uuid)
  {
    var e := r.entity[uuid];
    var r1 := DeleteEntity(r, e);
    forall c | c in r.connection && r.connection[c] == ConnectionName(uuid) ensures c !in Permitted(r1) {
      OwnerIs(r, uuid, c);
      forall p | p in r1.permission ensures p.1 != c {
        assert p.1 == c ==> p == (p.0, c);
      }
    }
  }

  lemma CleanupKeepsInv(db: Db, uuid: UUID, fault: Fault)
    requires Inv(db)
    ensures Inv(AfterCleanup(db, uuid, fault))
  {
    if CleanupSucceeds(db, uuid, fault) && uuid in db.rows.entity {
      var r, r' := db.rows, AfterCleanup(db, uuid, fault).rows;
      CleanupRows(db, uuid, fault);
      forall c | c in r'.connection ensures exists n :: OwnsConnection(r', n, c) {
        var n :| OwnsConnection(r, n, c);
        assert n != uuid;
        assert OwnsConnection(r', n, c);
      }
      forall p | p in r'.permission ensures p.0 in r'.entity.Values && p.1 in r'.connection {
        var n :| n in r.entity && r.entity[n] == p.0;
        assert r'.entity[n] == p.0;
      }
      forall d | d in r'.user ensures d in r'.entity.Values {
        var n :| n in r.entity && r.entity[n] == d;
        assert r'.entity[n] == d;
      }
    }
  }

  /** A successful Cleanup keeps exactly the rows of the other VMs. */
  lemma CleanupRows(db: Db, uuid: UUID, fault: Fault)
    requires Inv(db) && CleanupSucceeds(db, uuid, fault) && uuid in db.rows.entity
    ensures KeepsOthers(db.rows, AfterCleanup(db, uuid, fault).rows, uuid)
  {
    var r := db.rows;
    var e := r.entity[uuid];
    var r1 := DeleteEntity(r, e);
    var gone := Orphans(r1, ConnectionName(uuid));
    OrphansAreAll(r, uuid);
    assert r1.entity == r.entity - {uuid};
    forall p | p in r.permission ensures p.0 == e <==> p.1 in gone {
      var n :| OwnsConnection(r, n, p.1);
      assert p == (p.0, p.1);
      OwnsIffNamed(r, n, uuid, p.1);
    }
    assert DeleteConnections(r1, gone).permission == set p | p in r.permission && p.1 !in gone;
  }

  lemma OwnsIffNamed(r: Rows, n: string, uuid: UUID, c: Id)
    requires KeysUnique(r) && uuid in r.entity && c in r.connection && OwnsConnection(r, n, c)
    ensures r.entity[n] == r.entity[uuid] <==> r.connection[c] == ConnectionName(uuid)
  {
    ConnectionNameInjective(n, uuid);
  }

  ghost predicate KeepsOthers(r: Rows, r': Rows, uuid: UUID)
    requires uuid in r.entity
  {
    r'.entity == r.entity - {uuid} && r'.user == r.user - {r.entity[uuid]} &&
    (forall c :: c in r'.connection <==> c in r.connection && r.connection[c] != ConnectionName(uuid)) &&
    (forall c :: c in r'.connection ==> r'.connection[c] == r.connection[c]) &&
    (forall k :: k in r'.parameter <==> k in r.parameter && k.0 in r'.connection) &&
    (forall k :: k in r'.parameter ==> r'.parameter[k] == r.parameter[k]) &&
    (forall p :: p in r'.permission <==> p in r.permission && p.1 in r'.connection)
  }

  /** The VM's user may use connection c, which has these parameters. */
  predicate HasConnection(r: Rows, uuid: UUID, c: Id, credentials: Credentials,
                          hostname: string, port: string, username: string, privateKey: string)
  {
    uuid in r.entity && r.entity[uuid] in r.user && r.user[r.entity[uuid]].credentials == credentials &&
    c in r.connection && r.connection[c] == uuid + "-ssh" && (r.entity[uuid], c) in r.permission &&
    (c, "hostname") in r.parameter && r.parameter[(c, "hostname")] == hostname &&
    (c, "port") in r.parameter && r.parameter[(c, "port")] == port &&
    (c, "username") in r.parameter && r.parameter[(c, "username")] == username &&
    (c, "private-key") in r.parameter && r.parameter[(c, "private-key")] == privateKey
  }

  /** What a configuration without a failure writes, value by value: the entity named like the VM, its user with the
      new credentials, and a new connection over which the user logs in with the private key on port 22. */
  lemma ConfigureWrites(db: Db, uuid: UUID, credentials: Credentials, access: Access)
    ensures var r, c := AfterConfigure(db, uuid, credentials, access, None).rows, db.next.connection;
            (uuid in db.rows.entity ==> uuid in r.entity && r.entity[uuid] == db.rows.entity[uuid]) &&
            HasConnection(r, uuid, c, credentials, access.hostname, "22", access.username, access.privateKey)
  {
    var r, c := AfterConfigure(db, uuid, credentials, access, None).rows, db.next.connection;
    forall p | p in PARAMETERS ensures (c, p) in r.parameter && r.parameter[(c, p)] == ParameterValue(access, p) {
      assert (c, p) in ParameterRows(c, access, PARAMETERS);
    }
    assert "hostname" in PARAMETERS && "port" in PARAMETERS && "username" in PARAMETERS && "private-key" in PARAMETERS;
  }

  // ---------------------------------------------------------------- the database object

  class GuacamoleDatabase {
    var rows: Rows
    var next: Counters

    function State(): Db
      reads this
    {
      Db(rows, next)
    }

    /** statement 2: the new entity's id is the counter's value. */
    method InsertEntity(uuid: UUID) returns (id: Id)
      modifies this
      ensures id == old(next.entity) && next == old(next).(entity := id + 1)
      ensures rows == old(rows).(entity := old(rows).entity[uuid := id])
    {
      id := next.entity;
      rows := rows.(entity := rows.entity[uuid := id]);
      next := next.(entity := id + 1);
    }

    /** statement 3: insert, or update the row with the same entity_id. */
    method UpsertUser(entity: Id, credentials: Credentials)
      modifies this
      ensures next == old(next).(user := old(next.user) + 1)
      ensures rows == old(rows).(user := old(rows).user[entity := UserRow(UserId(old(State()), entity), credentials)])
    {
      var id := if entity in rows.user then rows.user[entity].userId else next.user;
      rows := rows.(user := rows.user[entity := UserRow(id, credentials)]);
      next := next.(user := next.user + 1);
    }

    /** statement 4: no unique key can be hit, so this always inserts. */
    method InsertConnection(name: string) returns (id: Id)
      modifies this
      ensures id == old(next.connection) && next == old(next).(connection := id + 1)
      ensures rows == old(rows).(connection := old(rows).connection[id := name])
    {
      id := next.connection;
      rows := rows.(connection := rows.connection[id := name]);
      next := next.(connection := id + 1);
    }

    /** statements 5 to 8; order is the order in which the parameters are visited: a Go map has none of its own. */
    method SetParameters(connection: Id, access: Access, order: seq<string>, fault: Fault) returns (ok: bool)
      requires multiset(order) == multiset(PARAMETERS) && !StrikesBefore(fault, 5)
      modifies this
      ensures next == old(next)
      ensures ok <==> !StrikesBefore(fault, 9)
      ensures ok ==>
                rows == old(rows).(parameter := old(rows).parameter + ParameterRows(connection, access, PARAMETERS))
    {
      OrderCoversParameters(order);
      for i := 0 to 4
        invariant next == old(next) && !StrikesBefore(fault, 5 + i)
        invariant rows == old(rows).(parameter := WithParameters(old(rows).parameter, connection, access, order[..i]))
      {
        if Strikes(fault, 5 + i) { return false; }
        var key := (connection, order[i]);
        rows := rows.(parameter := rows.parameter[key := ParameterValue(access, order[i])]);
        assert order[..i + 1][..i] == order[..i];
      }
      assert order[..4] == order;
      AllParameters(old(rows).parameter, connection, access, order, PARAMETERS);
      return true;
    }

    /** statements 2 to 9, up to the first one that fails. */
    method WriteConfiguration(uuid: UUID, credentials: Credentials, access: Access, order: seq<string>, fault: Fault)
      returns (ok: bool)
      requires multiset(order) == multiset(PARAMETERS) && !StrikesBefore(fault, 2)
      modifies this
      ensures ok <==> !StrikesBefore(fault, 10)
      ensures ok ==> rows == Configured(old(State()), uuid, credentials, access)
      ensures next == CountersAfter(old(State()), uuid, if ok then 10 else fault.value)
      ensures next.entity == old(next.entity) +
                if (fault.None? || fault.value > 2) && uuid !in old(rows.entity) then 1 else 0
      ensures next.user == old(next.user) + if fault.None? || fault.value > 3 then 1 else 0
      ensures next.connection == old(next.connection) + if fault.None? || fault.value > 4 then 1 else 0
    {
      if Strikes(fault, 2) { return false; }
      var entityID;
      if uuid in rows.entity {
        entityID := rows.entity[uuid];
        assert rows.entity == rows.entity[uuid := entityID];
      } else {
        entityID := InsertEntity(uuid);
      }
      if Strikes(fault, 3) { return false; }
      UpsertUser(entityID, credentials);
      if Strikes(fault, 4) { return false; }
      var connectionID := InsertConnection(ConnectionName(uuid));
      ok := SetParameters(connectionID, access, order, fault);
      if !ok || Strikes(fault, 9) { return false; }
      rows := rows.(permission := rows.permission + {(entityID, connectionID)});
    }

    /** The deferred rollback undoes the rows of a failed transaction, not its counters. */
    method Configure(uuid: UUID, userPass: string, credentials: Credentials, access: Access,
                     order: seq<string>, fault: Fault)
      returns (pass: string)
      requires userPass != "" && multiset(order) == multiset(PARAMETERS)
      modifies this
      ensures State() == AfterConfigure(old(State()), uuid, credentials, access, fault)
      ensures pass == if StrikesBefore(fault, CONFIGURE_STATEMENTS) then "" else userPass
      ensures pass == (if fault.None? || fault.value > 10 then userPass else "")
      ensures pass == "" ==> rows == old(rows)
      ensures pass != "" ==> HasConnection(rows, uuid, old(next.connection), credentials,
                                           access.hostname, "22", access.username, access.privateKey)
    {
      ConfigureWrites(State(), uuid, credentials, access);
      if Strikes(fault, 0) || Strikes(fault, 1) { return ""; }
      var saved := rows;
      var ok := WriteConfiguration(uuid, credentials, access, order, fault);
      if !ok || Strikes(fault, 10) {
        rows := saved;
        return "";
      }
      return userPass;
    }

    method Cleanup(uuid: UUID, fault: Fault) returns (ok: bool)
      modifies this
      ensures State() == AfterCleanup(old(State()), uuid, fault)
      ensures ok <==> CleanupSucceeds(old(State()), uuid, fault)
      ensures ok <==> fault.None? || fault.value > if uuid in old(rows.entity) then 5 else 2
      ensures if ok then uuid !in rows.entity else rows == old(rows)
    {
      if Strikes(fault, 0) || Strikes(fault, 1) || Strikes(fault, 2) { return false; }
      if uuid !in rows.entity { return true; }
      var saved := rows;
      if Strikes(fault, 3) { return false; }
      rows := DeleteEntity(rows, rows.entity[uuid]);
      if Strikes(fault, 4) { rows := saved; return false; }
      rows := DeleteConnections(rows, Orphans(rows, ConnectionName(uuid)));
      if Strikes(fault, 5) { rows := saved; return false; }
      return true;
    }
  }

  function WithParameters(m: map<(Id, string), string>, c: Id, a: Access, names: seq<string>)
    : map<(Id, string), string>
  {
    if names == [] then m
    else
      var last := names[|names| - 1];
      WithParameters(m, c, a, names[..|names| - 1])[(c, last) := ParameterValue(a, last)]
  }

  lemma {:induction false} WrittenParameters(m: map<(Id, string), string>, c: Id, a: Access, names: seq<string>)
    ensures forall k :: k in WithParameters(m, c, a, names) <==> k in m || (k.0 == c && k.1 in names)
    ensures forall k :: k in WithParameters(m, c, a, names) ==>
              WithParameters(m, c, a, names)[k] ==
              if k.0 == c && k.1 in names then ParameterValue(a, k.1) else m[k]
  {
    if names != [] {
      var front := names[..|names| - 1];
      WrittenParameters(m, c, a, front);
      assert forall p :: p in names <==> p in front || p == names[|names| - 1];
    }
  }

  lemma AllParameters(m: map<(Id, string), string>, c: Id, a: Access, order: seq<string>, names: seq<string>)
    requires forall p :: p in order <==> p in names
    ensures WithParameters(m, c, a, order) == m + ParameterRows(c, a, names)
  {
    WrittenParameters(m, c, a, order);
    assert forall k :: k in ParameterRows(c, a, names) <==> k.0 == c && k.1 in names;
  }

  lemma OrderCoversParameters(order: seq<string>)
    requires multiset(order) == multiset(PARAMETERS)
    ensures |order| == 4 && forall p :: p in order <==> p in PARAMETERS
  {
    assert |multiset(order)| == |order|;
    assert |multiset(PARAMETERS)| == |PARAMETERS|;
    forall p ensures p in order <==> p in PARAMETERS {
      assert p in order <==> p in multiset(order);
    }
  }
}
