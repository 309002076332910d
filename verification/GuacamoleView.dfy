/** The Guacamole database up to its auto-increment ids, and what whole runs do to it. */
module GuacamoleView {
  import opened Common
  import opened Guacamole

  type Settings = map<string, string>

  /** A VM's user and its connections in the order they were made. */
  datatype Account = Account(credentials: Credentials, connections: seq<Settings>)

  type Accounts = map<UUID, Account>

  // ---------------------------------------------------------------- reading a database without its ids

  function SettingsOf(r: Rows, c: Id): Settings {
    map p | p in PARAMETERS && (c, p) in r.parameter :: r.parameter[(c, p)]
  }

  function Granted(a: Access): Settings {
    map p | p in PARAMETERS :: ParameterValue(a, p)
  }

  /** The ids below n of the connections with the given name, in increasing order. */
  function IdsBelow(r: Rows, name: string, n: nat): seq<Id> {
    if n == 0 then []
    else IdsBelow(r, name, n - 1) +
         (if n - 1 in r.connection && r.connection[n - 1] == name then [n - 1] else [])
  }

  function SettingsOfAll(r: Rows, ids: seq<Id>): (s: seq<Settings>)
    ensures |s| == |ids| && forall i :: 0 <= i < |ids| ==> s[i] == SettingsOf(r, ids[i])
  {
    seq(|ids|, i requires 0 <= i < |ids| => SettingsOf(r, ids[i]))
  }

  function Ids(db: Db, uuid: UUID): seq<Id> { IdsBelow(db.rows, ConnectionName(uuid), db.next.connection) }

  function View(db: Db): Accounts {
    map u | u in db.rows.entity && db.rows.entity[u] in db.rows.user ::
      Account(db.rows.user[db.rows.entity[u]].credentials, SettingsOfAll(db.rows, Ids(db, u)))
  }

  // ---------------------------------------------------------------- the same view is the same database, renamed

  lemma {:induction false} IdsBelowAre(r: Rows, name: string, n: nat)
    ensures var ids := IdsBelow(r, name, n);
            (forall i, j :: 0 <= i < j < |ids| ==> ids[i] < ids[j]) &&
            (forall c :: c in ids <==> c < n && c in r.connection && r.connection[c] == name)
  {
    if n > 0 {
      IdsBelowAre(r, name, n - 1);
      var front := IdsBelow(r, name, n - 1);
      assert forall i :: 0 <= i < |front| ==> front[i] in front;
    }
  }

  ghost predicate IsBijection(f: map<Id, Id>, a: set<Id>, b: set<Id>) {
    f.Keys == a && f.Values == b && forall x, y :: x in f && y in f && f[x] == f[y] ==> x == y
  }

  /** b is a with entity ids renamed by re and connection ids renamed by rc. */
  ghost predicate IsRenaming(a: Rows, b: Rows, re: map<Id, Id>, rc: map<Id, Id>) {
    IsBijection(re, a.entity.Values, b.entity.Values) &&
    IsBijection(rc, a.connection.Keys, b.connection.Keys) &&
    (a.entity.Keys == b.entity.Keys && forall n :: n in a.entity ==> b.entity[n] == re[a.entity[n]]) &&
    (forall e :: e in re ==> (e in a.user <==> re[e] in b.user)) &&
    (forall e :: e in re && e in a.user ==> a.user[e].credentials == b.user[re[e]].credentials) &&
    (forall c :: c in rc ==> b.connection[rc[c]] == a.connection[c]) &&
    (forall c, p :: c in rc ==> ((c, p) in a.parameter <==> (rc[c], p) in b.parameter)) &&
    (forall c, p :: c in rc && (c, p) in a.parameter ==> a.parameter[(c, p)] == b.parameter[(rc[c], p)]) &&
    (forall e, c :: e in re && c in rc ==> ((e, c) in a.permission <==> (re[e], rc[c]) in b.permission))
  }

  /** The entity whose name makes the connection's name. */
  ghost function Owner(db: Db, c: Id): (n: UUID)
    requires Inv(db) && c in db.rows.connection
    ensures OwnsConnection(db.rows, n, c)
    ensures n in db.rows.entity && db.rows.connection[c] == ConnectionName(n)
  {
    var n :| OwnsConnection(db.rows, n, c);
    n
  }

  ghost function Rank(ids: seq<Id>, c: Id): (i: nat)
    requires c in ids
    ensures i < |ids| && ids[i] == c
  {
    var i :| 0 <= i < |ids| && ids[i] == c;
    i
  }

  lemma RankIs(ids: seq<Id>, i: nat)
    requires i < |ids| && forall i, j :: 0 <= i < j < |ids| ==> ids[i] < ids[j]
    ensures Rank(ids, ids[i]) == i
  {
  }

  lemma IdsAre(db: Db, u: UUID)
    requires Inv(db)
    ensures var ids := Ids(db, u);
            (forall i, j :: 0 <= i < j < |ids| ==> ids[i] < ids[j]) &&
            (forall c :: c in ids <==> c in db.rows.connection && db.rows.connection[c] == ConnectionName(u))
  {
    IdsBelowAre(db.rows, ConnectionName(u), db.next.connection);
  }

  lemma SameAccount(a: Db, b: Db, n: UUID)
    requires Inv(a) && Inv(b) && View(a) == View(b) && n in a.rows.entity
    ensures n in b.rows.entity && |Ids(a, n)| == |Ids(b, n)|
    ensures forall i :: 0 <= i < |Ids(a, n)| ==> SettingsOf(a.rows, Ids(a, n)[i]) == SettingsOf(b.rows, Ids(b, n)[i])
    ensures a.rows.user[a.rows.entity[n]].credentials == b.rows.user[b.rows.entity[n]].credentials
  {
    assert n in View(a) && n in View(b);
    assert View(a)[n] == View(b)[n];
    assert SettingsOfAll(a.rows, Ids(a, n)) == SettingsOfAll(b.rows, Ids(b, n));
    forall i | 0 <= i < |Ids(a, n)| ensures SettingsOf(a.rows, Ids(a, n)[i]) == SettingsOf(b.rows, Ids(b, n)[i]) {
      assert SettingsOfAll(a.rows, Ids(a, n))[i] == SettingsOfAll(b.rows, Ids(b, n))[i];
    }
  }

  lemma SameNames(a: Db, b: Db)
    requires Inv(a) && Inv(b) && View(a) == View(b)
    ensures a.rows.entity.Keys == b.rows.entity.Keys
  {
    hide Inv, View;
    ViewKeys(a);
    ViewKeys(b);
  }

  /** The connection of b that has the same owner as c in a and the same place among the owner's connections. */
  ghost function Twin(a: Db, b: Db, c: Id): (d: Id)
    requires Inv(a) && Inv(b) && View(a) == View(b) && c in a.rows.connection
    ensures d in b.rows.connection && b.rows.connection[d] == a.rows.connection[c]
    ensures SettingsOf(a.rows, c) == SettingsOf(b.rows, d)
  {
    var n := Owner(a, c);
    IdsAre(a, n);
    IdsAre(b, n);
    SameAccount(a, b, n);
    Ids(b, n)[Rank(Ids(a, n), c)]
  }

  lemma TwinOfTwin(a: Db, b: Db, c: Id)
    requires Inv(a) && Inv(b) && View(a) == View(b) && c in a.rows.connection
    ensures Twin(b, a, Twin(a, b, c)) == c
  {
    hide Inv, View, Ids, OwnsConnection, SettingsOf;
    var d := Twin(a, b, c);
    var n := Owner(a, c);
    ConnectionNameInjective(n, Owner(b, d));
    IdsAre(a, n);
    IdsAre(b, n);
    SameAccount(a, b, n);
    RankIs(Ids(b, n), Rank(Ids(a, n), c));
  }

  /** Databases with one view differ in their ids only. */
  lemma SameViewIsRenaming(a: Db, b: Db) returns (re: map<Id, Id>, rc: map<Id, Id>)
    requires Inv(a) && Inv(b) && View(a) == View(b)
    ensures IsRenaming(a.rows, b.rows, re, rc)
  {
    hide Inv, View, Ids, SettingsOf;
    SameNames(a, b);
    re := RenameEntities(a, b);
    rc := RenameConnections(a, b);
    forall n | n in a.rows.entity
      ensures a.rows.entity[n] in a.rows.user && b.rows.entity[n] in b.rows.user
      ensures a.rows.user[a.rows.entity[n]].credentials == b.rows.user[b.rows.entity[n]].credentials
    {
      UsersExist(a, n);
      UsersExist(b, n);
      SameAccount(a, b, n);
    }
    forall c, p | c in rc
      ensures (c, p) in a.rows.parameter <==> (rc[c], p) in b.rows.parameter
      ensures (c, p) in a.rows.parameter ==> a.rows.parameter[(c, p)] == b.rows.parameter[(rc[c], p)]
    {
      SameParameters(a, b, c, rc[c], p);
    }
    forall e, c | e in re && c in rc
      ensures (e, c) in a.rows.permission <==> (re[e], rc[c]) in b.rows.permission
    {
      SamePermissions(a, b, re, e, c, rc[c]);
    }
    forall e | e in re ensures e in a.rows.user && re[e] in b.rows.user
      && a.rows.user[e].credentials == b.rows.user[re[e]].credentials
    {
      var n := KeyOf(a.rows.entity, e);
    }
  }

  lemma UsersExist(a: Db, n: UUID)
    requires Inv(a) && n in a.rows.entity
    ensures a.rows.entity[n] in a.rows.user
  {
  }

  lemma SameParameters(a: Db, b: Db, c: Id, d: Id, p: string)
    requires Inv(a) && Inv(b) && c in a.rows.connection && d in b.rows.connection
    requires SettingsOf(a.rows, c) == SettingsOf(b.rows, d)
    ensures (c, p) in a.rows.parameter <==> (d, p) in b.rows.parameter
    ensures (c, p) in a.rows.parameter ==> a.rows.parameter[(c, p)] == b.rows.parameter[(d, p)]
  {
    assert p in PARAMETERS ==> p in SettingsOf(a.rows, c) && SettingsOf(a.rows, c)[p] == SettingsOf(b.rows, d)[p];
  }

  lemma SamePermissions(a: Db, b: Db, re: map<Id, Id>, e: Id, c: Id, d: Id)
    requires Inv(a) && Inv(b) && c in a.rows.connection && d in b.rows.connection && e in re
    requires a.rows.connection[c] == b.rows.connection[d] && a.rows.entity.Keys == b.rows.entity.Keys
    requires IsBijection(re, a.rows.entity.Values, b.rows.entity.Values)
    requires forall n :: n in a.rows.entity ==> a.rows.entity[n] in re && b.rows.entity[n] == re[a.rows.entity[n]]
    ensures (e, c) in a.rows.permission <==> (re[e], d) in b.rows.permission
  {
    var n := Owner(a, c);
    OwnerIs(b.rows, n, d);
  }

  lemma RenameEntities(a: Db, b: Db) returns (re: map<Id, Id>)
    requires Inv(a) && Inv(b) && a.rows.entity.Keys == b.rows.entity.Keys
    ensures IsBijection(re, a.rows.entity.Values, b.rows.entity.Values)
    ensures forall n :: n in a.rows.entity ==> a.rows.entity[n] in re && b.rows.entity[n] == re[a.rows.entity[n]]
  {
    NamesAreUnique(a);
    NamesAreUnique(b);
    hide Inv;
    re := Transport(a.rows.entity, b.rows.entity);
  }

  ghost predicate Injective(f: map<UUID, Id>) {
    forall m, n :: m in f && n in f && f[m] == f[n] ==> m == n
  }

  /** Two injective numberings of the same names are a bijection between the numbers. */
  lemma Transport(f: map<UUID, Id>, g: map<UUID, Id>) returns (re: map<Id, Id>)
    requires Injective(f) && Injective(g) && f.Keys == g.Keys
    ensures IsBijection(re, f.Values, g.Values)
    ensures forall n :: n in f ==> f[n] in re && g[n] == re[f[n]]
  {
    re := map e | e in f.Values :: g[KeyOf(f, e)];
    forall n | n in f ensures f[n] in re && g[n] == re[f[n]] {
      assert KeyOf(f, f[n]) == n;
    }
    forall e | e in g.Values ensures e in re.Values {
      assert re[f[KeyOf(g, e)]] == e;
    }
    forall x, y | x in re && y in re && re[x] == re[y] ensures x == y {
      assert KeyOf(f, x) == KeyOf(f, y);
    }
  }

  ghost function KeyOf(f: map<UUID, Id>, e: Id): (n: UUID)
    requires e in f.Values
    ensures n in f && f[n] == e
  {
    var n :| n in f && f[n] == e;
    n
  }

  lemma NamesAreUnique(a: Db)
    requires Inv(a)
    ensures Injective(a.rows.entity)
  {
  }

  lemma RenameConnections(a: Db, b: Db) returns (rc: map<Id, Id>)
    requires Inv(a) && Inv(b) && View(a) == View(b)
    ensures IsBijection(rc, a.rows.connection.Keys, b.rows.connection.Keys)
    ensures forall c :: c in rc ==> b.rows.connection[rc[c]] == a.rows.connection[c]
    ensures forall c :: c in rc ==> SettingsOf(a.rows, c) == SettingsOf(b.rows, rc[c])
  {
    hide Inv, View, SettingsOf;
    rc := map c | c in a.rows.connection :: Twin(a, b, c);
    var back := map d | d in b.rows.connection :: Twin(b, a, d);
    forall c | c in rc ensures back[rc[c]] == c {
      TwinOfTwin(a, b, c);
    }
    forall d | d in back ensures rc[back[d]] == d {
      TwinOfTwin(b, a, d);
    }
    Inverses(rc, back);
  }

  lemma Inverses(f: map<Id, Id>, g: map<Id, Id>)
    requires forall x :: x in f ==> f[x] in g && g[f[x]] == x
    requires forall y :: y in g ==> g[y] in f && f[g[y]] == y
    ensures IsBijection(f, f.Keys, g.Keys)
  {
    assert forall y :: y in g ==> y == f[g[y]];
  }

  // ---------------------------------------------------------------- what the transactions do to the view

  datatype Op =
    | OpConfigure(uuid: UUID, credentials: Credentials, access: Access, fault: Fault)
    | OpCleanup(uuid: UUID, fault: Fault)

  function Apply(db: Db, op: Op): Db {
    match op
    case OpConfigure(u, credentials, access, fault) => AfterConfigure(db, u, credentials, access, fault)
    case OpCleanup(u, fault) => AfterCleanup(db, u, fault)
  }

  function Run(db: Db, ops: seq<Op>): Db
    decreases |ops|
  {
    if ops == [] then db else Run(Apply(db, ops[0]), ops[1..])
  }

  function Earlier(v: Accounts, u: UUID): seq<Settings> { if u in v then v[u].connections else [] }

  /** Configure sets the user and adds one more connection; Cleanup drops the account; a failure changes nothing. */
  function ViewApply(v: Accounts, op: Op): Accounts {
    match op
    case OpConfigure(u, credentials, access, fault) =>
      if StrikesBefore(fault, CONFIGURE_STATEMENTS) then v
      else v[u := Account(credentials, Earlier(v, u) + [Granted(access)])]
    case OpCleanup(u, fault) =>
      if StrikesBefore(fault, if u in v then CLEANUP_STATEMENTS else 3) then v else v - {u}
  }

  lemma {:induction false} IdsBelowFrame(r: Rows, r': Rows, name: string, m: nat, n: nat)
    requires m <= n
    requires forall c: nat :: c < m ==> (Named(r, c, name) <==> Named(r', c, name))
    requires forall c: nat :: m <= c < n ==> !Named(r', c, name)
    ensures IdsBelow(r', name, n) == IdsBelow(r, name, m)
    decreases n
  {
    if m < n {
      assert !Named(r', n - 1, name);
      IdsBelowFrame(r, r', name, m, n - 1);
    } else if n > 0 {
      assert Named(r, n - 1, name) <==> Named(r', n - 1, name);
      IdsBelowFrame(r, r', name, m - 1, n - 1);
    }
  }

  predicate Named(r: Rows, c: Id, name: string) { c in r.connection && r.connection[c] == name }

  lemma ViewAt(db: Db, db': Db, u: UUID)
    requires Inv(db) && Inv(db') && u in db.rows.entity && u in db'.rows.entity
    requires db.rows.user[db.rows.entity[u]].credentials == db'.rows.user[db'.rows.entity[u]].credentials
    requires Ids(db', u) == Ids(db, u)
    requires forall c :: c in Ids(db, u) ==> SettingsOf(db'.rows, c) == SettingsOf(db.rows, c)
    ensures View(db')[u] == View(db)[u]
  {
    assert SettingsOfAll(db'.rows, Ids(db', u)) == SettingsOfAll(db.rows, Ids(db, u));
  }

  lemma ViewOfFailure(db: Db, op: Op)
    requires Inv(db) && Inv(Apply(db, op)) && Apply(db, op).rows == db.rows
    requires Apply(db, op).next.connection >= db.next.connection
    ensures View(Apply(db, op)) == View(db)
  {
    var db' := Apply(db, op);
    forall u | u in View(db) ensures View(db')[u] == View(db)[u] {
      IdsBelowFrame(db.rows, db'.rows, ConnectionName(u), db.next.connection, db'.next.connection);
      ViewAt(db, db', u);
    }
  }

  lemma EntitiesAfterConfigure(db: Db, u: UUID, credentials: Credentials, access: Access)
    ensures AfterConfigure(db, u, credentials, access, None).rows.entity.Keys == db.rows.entity.Keys + {u}
  {
  }

  lemma ViewOfConfigure(db: Db, u: UUID, credentials: Credentials, access: Access)
    requires Inv(db)
    ensures View(AfterConfigure(db, u, credentials, access, None)) ==
            View(db)[u := Account(credentials, Earlier(View(db), u) + [Granted(access)])]
  {
    hide View, Inv, AfterConfigure, Granted;
    var db' := AfterConfigure(db, u, credentials, access, None);
    ConfigureKeepsInv(db, u, credentials, access, None);
    ViewKeys(db);
    ViewKeys(db');
    EntitiesAfterConfigure(db, u, credentials, access);
    NewConnection(db, u, credentials, access);
    forall n | n in db.rows.entity && n != u ensures View(db')[n] == View(db)[n] {
      OldAccount(db, u, credentials, access, n);
    }
  }

  lemma ViewKeys(db: Db)
    requires Inv(db)
    ensures View(db).Keys == db.rows.entity.Keys
  {
  }

  lemma OldAccount(db: Db, u: UUID, credentials: Credentials, access: Access, n: UUID)
    requires Inv(db) && n in db.rows.entity && n != u
    requires Inv(AfterConfigure(db, u, credentials, access, None))
    ensures n in View(AfterConfigure(db, u, credentials, access, None)) && n in View(db)
    ensures View(AfterConfigure(db, u, credentials, access, None))[n] == View(db)[n]
  {
    hide View, IdsBelow, SettingsOf;
    var db' := AfterConfigure(db, u, credentials, access, None);
    ViewKeys(db);
    ViewKeys(db');
    OldConnections(db, u, credentials, access, n);
    OtherUsers(db, u, credentials, access, n);
    ViewAt(db, db', n);
  }

  lemma OtherUsers(db: Db, u: UUID, credentials: Credentials, access: Access, n: UUID)
    requires Inv(db) && n in db.rows.entity && n != u
    ensures var r := Configured(db, u, credentials, access);
            n in r.entity && r.entity[n] == db.rows.entity[n] && r.entity[n] in r.user &&
            r.user[r.entity[n]] == db.rows.user[r.entity[n]]
  {
    assert db.rows.entity[n] != EntityId(db, u);
  }

  lemma SettingsKept(db: Db, u: UUID, credentials: Credentials, access: Access, c: Id)
    requires Inv(db) && c in db.rows.connection
    ensures SettingsOf(Configured(db, u, credentials, access), c) == SettingsOf(db.rows, c)
  {
  }

  lemma OldConnections(db: Db, u: UUID, credentials: Credentials, access: Access, n: UUID)
    requires Inv(db) && n != u
    ensures var db' := AfterConfigure(db, u, credentials, access, None);
            Ids(db', n) == Ids(db, n) &&
            forall c :: c in Ids(db, n) ==> SettingsOf(db'.rows, c) == SettingsOf(db.rows, c)
  {
    var db' := AfterConfigure(db, u, credentials, access, None);
    ConnectionNameInjective(u, n);
    IdsAre(db, n);
    forall c | c in Ids(db, n) ensures SettingsOf(db'.rows, c) == SettingsOf(db.rows, c) {
      SettingsKept(db, u, credentials, access, c);
    }
    IdsBelowFrame(db.rows, db'.rows, ConnectionName(n), db.next.connection, db'.next.connection);
  }

  lemma NoConnections(db: Db, u: UUID)
    requires Inv(db) && u !in db.rows.entity
    ensures Ids(db, u) == []
  {
    IdsAre(db, u);
    if Ids(db, u) != [] {
      OwnerIs(db.rows, u, Ids(db, u)[0]);
    }
  }

  lemma NewIds(db: Db, u: UUID, credentials: Credentials, access: Access)
    requires Inv(db)
    ensures Ids(AfterConfigure(db, u, credentials, access, None), u) == Ids(db, u) + [db.next.connection]
  {
    hide IdsBelow, ConnectionName, Configured;
    MadeConnection(db, u, credentials, access);
    OneMore(db.rows, Configured(db, u, credentials, access), ConnectionName(u), db.next.connection);
  }

  lemma MadeConnection(db: Db, u: UUID, credentials: Credentials, access: Access)
    requires Inv(db)
    ensures var c := db.next.connection;
            c !in db.rows.connection &&
            Configured(db, u, credentials, access).connection == db.rows.connection[c := ConnectionName(u)]
  {
    hide ConnectionName;
  }

  lemma OneMore(r: Rows, r': Rows, name: string, c: Id)
    requires c !in r.connection && r'.connection == r.connection[c := name]
    ensures IdsBelow(r', name, c + 1) == IdsBelow(r, name, c) + [c]
  {
    IdsBelowFrame(r, r', name, c, c);
    assert IdsBelow(r', name, c + 1) == IdsBelow(r', name, c) + [c];
  }

  lemma NewSettings(db: Db, u: UUID, credentials: Credentials, access: Access)
    requires Inv(db)
    ensures SettingsOf(Configured(db, u, credentials, access), db.next.connection) == Granted(access)
    ensures forall d :: d in Ids(db, u) ==>
              SettingsOf(Configured(db, u, credentials, access), d) == SettingsOf(db.rows, d)
  {
    SettingsMade(db, u, credentials, access);
    hide SettingsOf, Configured, Ids, Inv, Granted;
    IdsAre(db, u);
    forall d | d in Ids(db, u) ensures SettingsOf(Configured(db, u, credentials, access), d) == SettingsOf(db.rows, d) {
      SettingsKept(db, u, credentials, access, d);
    }
  }

  lemma SettingsMade(db: Db, u: UUID, credentials: Credentials, access: Access)
    ensures SettingsOf(Configured(db, u, credentials, access), db.next.connection) == Granted(access)
  {
  }

  lemma NewConnection(db: Db, u: UUID, credentials: Credentials, access: Access)
    requires Inv(db)
    ensures var db' := AfterConfigure(db, u, credentials, access, None);
            u in View(db') &&
            View(db')[u] == Account(credentials, Earlier(View(db), u) + [Granted(access)])
  {
    var r' := Configured(db, u, credentials, access);
    NewIds(db, u, credentials, access);
    NewSettings(db, u, credentials, access);
    EarlierIs(db, u);
    hide Ids, SettingsOf, Inv, Granted, Earlier;
    SettingsAppend(db.rows, r', Ids(db, u), db.next.connection);
    NewUser(db, u, credentials, access);
    hide Configured;
  }

  lemma NewUser(db: Db, u: UUID, credentials: Credentials, access: Access)
    ensures var r' := Configured(db, u, credentials, access);
            u in r'.entity && r'.entity[u] in r'.user && r'.user[r'.entity[u]].credentials == credentials
  {
  }

  lemma SettingsAppend(r: Rows, r': Rows, ids: seq<Id>, c: Id)
    requires forall d :: d in ids ==> SettingsOf(r', d) == SettingsOf(r, d)
    ensures SettingsOfAll(r', ids + [c]) == SettingsOfAll(r, ids) + [SettingsOf(r', c)]
  {
  }

  lemma EarlierIs(db: Db, u: UUID)
    requires Inv(db)
    ensures Earlier(View(db), u) == SettingsOfAll(db.rows, Ids(db, u))
  {
    if u !in db.rows.entity {
      NoConnections(db, u);
    }
  }

  lemma ViewOfCleanup(db: Db, u: UUID)
    requires Inv(db) && u in db.rows.entity
    ensures View(AfterCleanup(db, u, None)) == View(db) - {u}
  {
    hide View, Inv;
    var db' := AfterCleanup(db, u, None);
    CleanupKeepsInv(db, u, None);
    CleanupRows(db, u, None);
    ViewKeys(db);
    ViewKeys(db');
    hide AfterCleanup;
    forall n | n in db'.rows.entity ensures View(db')[n] == View(db)[n] {
      KeptAccount(db, db', u, n);
    }
  }

  lemma KeptAccount(db: Db, db': Db, u: UUID, n: UUID)
    requires Inv(db) && Inv(db') && u in db.rows.entity && KeepsOthers(db.rows, db'.rows, u) && db'.next == db.next
    requires n in db'.rows.entity
    ensures n in View(db) && n in View(db') && View(db')[n] == View(db)[n]
  {
    ViewKeys(db);
    ViewKeys(db');
    KeptConnections(db, db', u, n);
    assert db.rows.entity[n] != db.rows.entity[u];
    hide View, Ids, SettingsOf;
    ViewAt(db, db', n);
  }

  lemma KeptConnections(db: Db, db': Db, u: UUID, n: UUID)
    requires Inv(db) && u in db.rows.entity && KeepsOthers(db.rows, db'.rows, u) && db'.next == db.next && n != u
    ensures Ids(db', n) == Ids(db, n)
    ensures forall c :: c in Ids(db, n) ==> SettingsOf(db'.rows, c) == SettingsOf(db.rows, c)
  {
    hide Inv, IdsBelow, SettingsOf;
    ConnectionNameInjective(u, n);
    IdsAre(db, n);
    IdsBelowFrame(db.rows, db'.rows, ConnectionName(n), db.next.connection, db'.next.connection);
    forall c | c in Ids(db, n) ensures SettingsOf(db'.rows, c) == SettingsOf(db.rows, c) {
      assert c in db'.rows.connection;
      KeptSettings(db.rows, db'.rows, u, c);
    }
  }

  lemma KeptSettings(r: Rows, r': Rows, u: UUID, c: Id)
    requires u in r.entity && KeepsOthers(r, r', u) && c in r'.connection
    ensures SettingsOf(r', c) == SettingsOf(r, c)
  {
  }

  lemma ConfigureRefines(db: Db, u: UUID, credentials: Credentials, access: Access, fault: Fault)
    requires Inv(db)
    ensures var op := OpConfigure(u, credentials, access, fault);
            Inv(Apply(db, op)) && View(Apply(db, op)) == ViewApply(View(db), op)
  {
    var op := OpConfigure(u, credentials, access, fault);
    hide View, Inv, Configured, Granted, Earlier;
    ConfigureKeepsInv(db, u, credentials, access, fault);
    if StrikesBefore(fault, CONFIGURE_STATEMENTS) {
      ViewOfFailure(db, op);
    } else {
      ViewOfConfigure(db, u, credentials, access);
    }
  }

  lemma CleanupRefines(db: Db, u: UUID, fault: Fault)
    requires Inv(db)
    ensures var op := OpCleanup(u, fault);
            Inv(Apply(db, op)) && View(Apply(db, op)) == ViewApply(View(db), op)
  {
    hide View, Inv, AfterCleanup;
    ViewKeys(db);
    CleanupKeepsInv(db, u, fault);
    CleanupCases(db, u, fault);
    if CleanupSucceeds(db, u, fault) && u in db.rows.entity {
      ViewOfCleanup(db, u);
    } else {
      assert u !in View(db) ==> View(db) - {u} == View(db);
    }
  }

  lemma CleanupCases(db: Db, u: UUID, fault: Fault)
    ensures AfterCleanup(db, u, fault) ==
            if CleanupSucceeds(db, u, fault) && u in db.rows.entity then AfterCleanup(db, u, None) else db
  {
  }

  /** Every transaction keeps the invariant and is, up to ids, the simple operation on accounts. */
  /** The accounts after a configuration without a failure: new credentials, and one connection more, with the four
      parameters as they are. No other account changes. */
  lemma ConfigureGives(db: Db, u: UUID, credentials: Credentials, access: Access)
    requires Inv(db)
    ensures var v, v' := View(db), View(AfterConfigure(db, u, credentials, access, None));
            v' - {u} == v - {u} && u in v' && v'[u].credentials == credentials &&
            v'[u].connections == (if u in v then v[u].connections else []) +
              [map["hostname" := access.hostname, "port" := "22",
                   "username" := access.username, "private-key" := access.privateKey]]
  {
    hide View, Inv, AfterConfigure;
    ApplyRefines(db, OpConfigure(u, credentials, access, None));
    GrantedIs(access);
  }

  lemma GrantedIs(access: Access)
    ensures Granted(access) == map["hostname" := access.hostname, "port" := "22",
                                   "username" := access.username, "private-key" := access.privateKey]
  {
    assert PARAMETERS[0] == "hostname" && PARAMETERS[1] == "port" && PARAMETERS[2] == "username";
    assert PARAMETERS[3] == "private-key";
    assert "port" != "hostname" && "username" != "hostname" && "username" != "port";
    assert "private-key" != "hostname" && "private-key" != "port" && "private-key" != "username";
  }

  lemma ApplyRefines(db: Db, op: Op)
    requires Inv(db)
    ensures Inv(Apply(db, op)) && View(Apply(db, op)) == ViewApply(View(db), op)
  {
    match op {
      case OpConfigure(u, credentials, access, fault) => ConfigureRefines(db, u, credentials, access, fault);
      case OpCleanup(u, fault) => CleanupRefines(db, u, fault);
    }
  }

  // ---------------------------------------------------------------- runs

  lemma EmptyDbInv()
    ensures Inv(EMPTY_DB) && View(EMPTY_DB) == map[]
  {
  }

  /** The invariant holds after every run from the empty database, whatever fails. */
  lemma {:induction false} RunKeepsInv(db: Db, ops: seq<Op>)
    requires Inv(db)
    ensures Inv(Run(db, ops))
    decreases |ops|
  {
    if ops != [] {
      ApplyRefines(db, ops[0]);
      RunKeepsInv(Apply(db, ops[0]), ops[1..]);
    }
  }

  /** ops with those on VM u left out. */
  function Without(ops: seq<Op>, u: UUID): seq<Op>
    decreases |ops|
  {
    if ops == [] then []
    else if ops[0].uuid == u then Without(ops[1..], u)
    else [ops[0]] + Without(ops[1..], u)
  }

  /** Operations on other VMs neither see nor touch the account of u. */
  lemma {:induction false} OthersDoNotSee(db: Db, db': Db, ops: seq<Op>, u: UUID)
    requires Inv(db) && Inv(db') && View(db) - {u} == View(db') - {u} && u !in View(db')
    ensures Inv(Run(db, ops)) && Inv(Run(db', Without(ops, u)))
    ensures View(Run(db, ops)) - {u} == View(Run(db', Without(ops, u)))
    decreases |ops|
  {
    hide View, Inv, Apply, ViewApply;
    if ops == [] {
      assert View(db') - {u} == View(db');
    } else {
      var op := ops[0];
      ApplyRefines(db, op);
      if op.uuid == u {
        OwnOnly(View(db), op);
        OthersDoNotSee(Apply(db, op), db', ops[1..], u);
      } else {
        ApplyRefines(db', op);
        SameElsewhere(View(db), View(db'), op, u);
        OthersDoNotSee(Apply(db, op), Apply(db', op), ops[1..], u);
        assert ([op] + Without(ops[1..], u))[1..] == Without(ops[1..], u);
      }
    }
  }

  lemma OwnOnly(v: Accounts, op: Op)
    ensures ViewApply(v, op) - {op.uuid} == v - {op.uuid}
  {
  }

  lemma SameElsewhere(v: Accounts, v': Accounts, op: Op, u: UUID)
    requires v - {u} == v' - {u} && op.uuid != u && u !in v'
    ensures ViewApply(v, op) - {u} == ViewApply(v', op) - {u} && u !in ViewApply(v', op)
  {
    var n := op.uuid;
    assert n in v <==> n in v - {u};
    assert n in v' <==> n in v' - {u};
    assert n in v ==> v[n] == (v - {u})[n] == (v' - {u})[n] == v'[n];
    if op.OpConfigure? && !StrikesBefore(op.fault, CONFIGURE_STATEMENTS) {
      var account := Account(op.credentials, Earlier(v, n) + [Granted(op.access)]);
      assert v[n := account] - {u} == (v - {u})[n := account];
      assert v'[n := account] - {u} == (v' - {u})[n := account];
    } else if op.OpCleanup? {
      assert (v - {n}) - {u} == (v - {u}) - {n};
      assert (v' - {n}) - {u} == (v' - {u}) - {n};
    }
  }

  ghost predicate NoRowsOf(r: Rows, u: UUID) {
    u !in r.entity && forall c :: c in r.connection ==> r.connection[c] != ConnectionName(u)
  }

  /** After any run of Configure and Cleanup calls on any VMs, with any failures, a successful Cleanup of u leaves
      the database that the run without u's calls gives, up to ids, and no row of u. */
  lemma CleanupErases(db: Db, ops: seq<Op>, u: UUID) returns (left: Db, never: Db, re: map<Id, Id>, rc: map<Id, Id>)
    requires Inv(db) && u !in db.rows.entity
    ensures left == AfterCleanup(Run(db, ops), u, None) && never == Run(db, Without(ops, u))
    ensures Inv(left) && IsRenaming(left.rows, never.rows, re, rc)
    ensures NoRowsOf(left.rows, u)
  {
    hide AfterCleanup, Run, Inv, View, IsRenaming, NoRowsOf;
    left, never := CleanupErasesView(db, ops, u);
    NoRows(left, u);
    re, rc := SameViewIsRenaming(left, never);
  }

  lemma CleanupErasesView(db: Db, ops: seq<Op>, u: UUID) returns (left: Db, never: Db)
    requires Inv(db) && u !in db.rows.entity
    ensures left == AfterCleanup(Run(db, ops), u, None) && never == Run(db, Without(ops, u))
    ensures Inv(left) && Inv(never) && View(left) == View(never) && u !in View(left)
  {
    hide View, Inv, AfterCleanup;
    ViewKeys(db);
    OthersDoNotSee(db, db, ops, u);
    never := Run(db, Without(ops, u));
    left := CleanupView(Run(db, ops), u);
  }

  lemma CleanupView(x: Db, u: UUID) returns (left: Db)
    requires Inv(x)
    ensures left == AfterCleanup(x, u, None) && Inv(left) && View(left) == View(x) - {u}
  {
    hide View, Inv, AfterCleanup;
    left := AfterCleanup(x, u, None);
    CleanupRefines(x, u, None);
  }

  lemma NoRows(d: Db, u: UUID)
    requires Inv(d) && u !in View(d)
    ensures NoRowsOf(d.rows, u)
  {
    ViewKeys(d);
    NoConnections(d, u);
    IdsAre(d, u);
  }
}
