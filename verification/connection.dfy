/**
 * The queue store of the notification transport (`Connection`). The database table
 * is a finite map from row id to row, time is an integer clock in seconds supplied
 * by the caller, and every operation is one atomic transition of (connection, database).
 */
module Connection {
  import opened Wrappers
  import opened Config

  /** Decoded message headers; the JSON encoding of the column is abstracted away. */
  type Headers = map<string, Value>

  /** One row of the queue table, without its id. */
  datatype Row = Row(
    orderId: int,
    encodedMessage: string,
    headers: Headers,
    providerName: Option<string>,
    templateName: Option<string>,
    handled: bool,
    pushSent: bool,
    emailSent: bool,
    createdAt: int,
    availableAt: int,
    deliveredAt: Option<int>)

  type Rows = map<nat, Row>

  /** A row as a query returns it: the id together with the columns. */
  datatype Fetched = Fetched(id: nat, row: Row)

  /** The DBAL exceptions the model distinguishes. */
  datatype DbError = TableNotFound | RetryableError | DriverError

  /** The `TransportException` that wraps a DBAL exception. */
  datatype TransportException = TransportException(cause: DbError)

  /**
   * The database as the driver presents it. `injected` scripts the driver's next
   * executions, oldest first: `Some(e)` makes that execution raise `e`. An execution
   * with nothing injected fails only when the table is missing.
   */
  datatype Db = Db(tableExists: bool, rows: Rows, nextId: nat, lastInsertId: nat, injected: seq<Option<DbError>>)

  /** The connection object's own state. */
  datatype Conn = Conn(configuration: Options, autoSetup: bool, queueEmptiedAt: Option<int>)

  datatype State = State(conn: Conn, db: Db)

  /** Ids are positive and below the next id the table will hand out. */
  predicate Valid(db: Db) {
    0 < db.nextId && forall id :: id in db.rows ==> 0 < id < db.nextId
  }

  /** A healthy driver: the table is there and no failure is scripted. */
  predicate FaultFree(db: Db) {
    db.tableExists && db.injected == []
  }

  // ---------------------------------------------------------------------------
  // Construction, reset and setup
  // ---------------------------------------------------------------------------

  /** The constructor: the configuration merged recursively over the defaults. */
  function NewConnection(configuration: Options): (c: Conn)
    ensures c.configuration.Keys == DefaultOptions.Keys + configuration.Keys
    ensures forall k :: k in configuration && k != "payload" ==> c.configuration[k] == configuration[k]
    ensures "auto_setup" in configuration ==> c.autoSetup == Truthy(configuration["auto_setup"])
    ensures "auto_setup" !in configuration ==> c.autoSetup
    ensures c.queueEmptiedAt.None?
  {
    var merged := ReplaceRecursive(DefaultOptions, configuration);
    assert forall k :: k in DefaultOptions && k != "payload" ==> !DefaultOptions[k].Dict? && !DefaultOptions[k].List?;
    Conn(merged, Truthy(merged["auto_setup"]), None)
  }

  /** Merging a list over the default empty list yields that list. */
  lemma ReplaceEmptyList(y: seq<Value>)
    ensures Replace(List([]), List(y)) == List(y)
  {
  }

  /** Outside the payload, the recursive merge over the defaults agrees with a plain override. */
  lemma MergedLookup(configuration: Options, k: string)
    requires k != "payload"
    ensures Lookup(NewConnection(configuration).configuration, k) == Lookup(DefaultOptions + configuration, k)
  {
  }

  /** The payload models of the recursive merge are those of a plain override. */
  lemma MergedModels(configuration: Options)
    ensures ModelsOf(NewConnection(configuration).configuration) == ModelsOf(DefaultOptions + configuration)
  {
    var merged := NewConnection(configuration).configuration;
    if "payload" in configuration {
      var p := configuration["payload"];
      if p.Dict? {
        assert merged["payload"] == Replace(Dict(map["models" := List([])]), p);
        if "models" in p.entries && p.entries["models"].List? {
          ReplaceEmptyList(p.entries["models"].items);
        }
      }
    }
  }

  /** For every setting the store reads, the recursive merge agrees with a plain override. */
  lemma ConstructorSettings(configuration: Options)
    ensures SettingsOf(NewConnection(configuration).configuration) == SettingsOf(DefaultOptions + configuration)
  {
    MergedLookup(configuration, "provider_name");
    MergedLookup(configuration, "template_name");
    MergedLookup(configuration, "redeliver_timeout");
    MergedLookup(configuration, "receive_timeout");
    MergedModels(configuration);
  }

  /** A configuration resolved from a DSN yields a connection whose autoSetup is the coerced option. */
  lemma BuiltConfigurationAutoSetup(dsn: Dsn, options: Options)
    requires BuildConfiguration(Some(dsn), options).Ok?
    ensures NewConnection(BuildConfiguration(Some(dsn), options).value).autoSetup ==
      FilterBool(Pick("auto_setup", dsn.query, options))
  {
  }

  /** `reset`: forgets when the queue was last seen empty. */
  function Reset(c: Conn): (r: Conn)
    ensures r.queueEmptiedAt.None?
    ensures r.configuration == c.configuration && r.autoSetup == c.autoSetup
  {
    c.(queueEmptiedAt := None)
  }

  /** `setup`: the schema update is disabled, so only automatic setup is switched off. */
  function Setup(c: Conn): (r: Conn)
    ensures !r.autoSetup
    ensures r.configuration == c.configuration && r.queueEmptiedAt == c.queueEmptiedAt
  {
    c.(autoSetup := false)
  }

  // ---------------------------------------------------------------------------
  // Executing statements
  // ---------------------------------------------------------------------------

  /** The fault injected into the driver's next execution, if any. */
  function NextInjected(db: Db): Option<DbError> {
    if |db.injected| > 0 then db.injected[0] else None
  }

  /** One execution by the driver: it raises the injected fault, else fails only on a missing table. */
  function Execute(db: Db): (r: (Db, Option<DbError>))
    ensures r.0 == db.(injected := r.0.injected)
    ensures |r.0.injected| == if |db.injected| > 0 then |db.injected| - 1 else 0
    ensures r.1.None? <==> db.tableExists && NextInjected(db).None?
    ensures NextInjected(db).Some? ==> r.1 == NextInjected(db)
    ensures NextInjected(db).None? && r.1.Some? ==> r.1 == Some(TableNotFound)
  {
    var rest := if |db.injected| > 0 then db.injected[1..] else [];
    var outcome :=
      if NextInjected(db).Some? then NextInjected(db)
      else if !db.tableExists then Some(TableNotFound)
      else None;
    (db.(injected := rest), outcome)
  }

  /**
   * `executeQuery`/`executeStatement` outside a transaction: a missing table runs
   * setup when automatic setup is on, and the statement is executed once more in
   * either case; any other outcome is returned as it is.
   */
  function ExecuteWithRecovery(c: Conn, db: Db): (r: (Conn, Db, Option<DbError>))
    ensures r.1 == db.(injected := r.1.injected)
    ensures r.0.configuration == c.configuration && r.0.queueEmptiedAt == c.queueEmptiedAt
    ensures Execute(db).1 != Some(TableNotFound) ==> r.0 == c && r.1 == Execute(db).0 && r.2 == Execute(db).1
    ensures Execute(db).1 == Some(TableNotFound) ==>
      !r.0.autoSetup && r.1 == Execute(Execute(db).0).0 && r.2 == Execute(Execute(db).0).1
    ensures r.2.None? ==> db.tableExists
  {
    var (db1, f1) := Execute(db);
    if f1 == Some(TableNotFound) then
      var c1 := if c.autoSetup then Setup(c) else c;
      var (db2, f2) := Execute(db1);
      (c1, db2, f2)
    else (c, db1, f1)
  }

  // ---------------------------------------------------------------------------
  // Selection predicates
  // ---------------------------------------------------------------------------

  /** SQL `=` on nullable text: NULL equals nothing, not even NULL. */
  predicate SqlEquals(a: Option<string>, b: Option<string>) {
    a.Some? && b.Some? && a.value == b.value
  }

  /**
   * The WHERE clause of `createAvailableMessagesQueryBuilder`; it does not look at
   * `handled`. A null provider or template name configured matches no row at all,
   * and a row delivered within the redeliver timeout is not available.
   */
  predicate Available(r: Row, s: Settings, now: int)
    ensures Available(r, s, now) ==>
      s.providerName.Some? && s.templateName.Some? &&
      r.providerName == s.providerName && r.templateName == s.templateName && r.availableAt <= now
    ensures r.deliveredAt.Some? && now - s.redeliverTimeout <= r.deliveredAt.value ==> !Available(r, s, now)
  {
    && (r.deliveredAt.None? || r.deliveredAt.value < now - s.redeliverTimeout)
    && r.availableAt <= now
    && SqlEquals(r.providerName, s.providerName)
    && SqlEquals(r.templateName, s.templateName)
  }

  /** `get`'s filter: available, not yet sent by push or e-mail, and not handled. */
  predicate Deliverable(r: Row, s: Settings, now: int)
    ensures Deliverable(r, s, now) ==> Available(r, s, now)
    ensures r.handled || r.pushSent || r.emailSent ==> !Deliverable(r, s, now)
  {
    Available(r, s, now) && !r.pushSent && !r.emailSent && !r.handled
  }

  function AvailableIds(rows: Rows, s: Settings, now: int): set<nat> {
    set id | id in rows && Available(rows[id], s, now)
  }

  function DeliverableIds(rows: Rows, s: Settings, now: int): set<nat> {
    set id | id in rows && Deliverable(rows[id], s, now)
  }

  // ---------------------------------------------------------------------------
  // Choosing among ids
  // ---------------------------------------------------------------------------

  /** `a` comes no later than `b` when ordered by `key`, ties going to the smaller id. */
  predicate Before(key: nat -> int, a: nat, b: nat) {
    key(a) < key(b) || (key(a) == key(b) && a <= b)
  }

  /** `m` comes no later than any id of `ids`. */
  predicate IsFirst(ids: set<nat>, key: nat -> int, m: nat) {
    forall j :: j in ids ==> Before(key, m, j)
  }

  /** Every non-empty finite set of ids has a first element in that order. */
  lemma {:induction false} FirstExists(ids: set<nat>, key: nat -> int)
    requires ids != {}
    ensures exists m :: m in ids && IsFirst(ids, key, m)
    decreases |ids|
  {
    var x :| x in ids;
    var rest := ids - {x};
    if rest == {} {
      assert ids == {x};
      assert IsFirst(ids, key, x);
    } else {
      FirstExists(rest, key);
      var m :| m in rest && IsFirst(rest, key, m);
      if Before(key, m, x) {
        assert IsFirst(ids, key, m);
      } else {
        forall j | j in ids
          ensures Before(key, x, j)
        {
          if j != x {
            assert j in rest;
            assert Before(key, m, j);
          }
        }
        assert IsFirst(ids, key, x);
      }
    }
  }

  /** The first id of a non-empty set in the order of `key`. */
  function First(ids: set<nat>, key: nat -> int): (m: nat)
    requires ids != {}
    ensures m in ids
    ensures forall j :: j in ids ==> Before(key, m, j)
  {
    FirstExists(ids, key);
    var m :| m in ids && IsFirst(ids, key, m);
    m
  }

  /** The key that orders ids by themselves alone. */
  function Unkeyed(id: nat): int {
    0
  }

  function AvailableAtOf(rows: Rows, id: nat): int {
    if id in rows then rows[id].availableAt else 0
  }

  /** `ORDER BY available_at ASC LIMIT 1` over the deliverable rows. */
  function Select(rows: Rows, s: Settings, now: int): (r: Option<nat>)
    ensures r.Some? ==> r.value in rows && Deliverable(rows[r.value], s, now)
    ensures r.Some? ==> forall id :: id in rows && Deliverable(rows[id], s, now) ==>
      rows[r.value].availableAt <= rows[id].availableAt
    ensures r.None? <==> forall id :: id in rows ==> !Deliverable(rows[id], s, now)
  {
    var ids := DeliverableIds(rows, s, now);
    assert forall id :: id in rows && Deliverable(rows[id], s, now) ==> id in ids;
    if ids == {} then None
    else Some(First(ids, (id: nat) => AvailableAtOf(rows, id)))
  }

  /** `r` lists the ids of `ids`, each exactly once, in strictly ascending order. */
  predicate SortedListing(r: seq<nat>, ids: set<nat>) {
    && |r| == |ids|
    && (forall i :: 0 <= i < |r| ==> r[i] in ids)
    && (forall id :: id in ids ==> id in r)
    && (forall i, j :: 0 <= i < j < |r| ==> r[i] < r[j])
  }

  /** Putting the least id in front of a sorted listing of the others lists them all. */
  lemma PrependLeast(m: nat, rest: seq<nat>, ids: set<nat>)
    requires m in ids
    requires forall id :: id in ids - {m} ==> m < id
    requires SortedListing(rest, ids - {m})
    ensures SortedListing([m] + rest, ids)
  {
  }

  /** The ids of a finite set in ascending order. */
  function SortedIds(ids: set<nat>): (r: seq<nat>)
    ensures SortedListing(r, ids)
    decreases |ids|
  {
    if ids == {} then []
    else
      var m := First(ids, Unkeyed);
      forall id | id in ids - {m}
        ensures m < id
      {
        assert Before(Unkeyed, m, id);
      }
      var rest := SortedIds(ids - {m});
      PrependLeast(m, rest, ids);
      [m] + rest
  }

  // ---------------------------------------------------------------------------
  // get
  // ---------------------------------------------------------------------------

  /**
   * One pass through `get`'s transaction: select the first deliverable row under a
   * write lock and stamp its `delivered_at`. A failed pass rolls back, so the rows
   * stay as they were.
   */
  function GetOnce(st: State, now: int): (r: (State, Result<Option<Fetched>, DbError>))
    ensures r.0.conn.configuration == st.conn.configuration && r.0.conn.autoSetup == st.conn.autoSetup
    ensures r.0.db == st.db.(injected := r.0.db.injected, rows := r.0.db.rows)
    ensures r.1.Err? ==> r.0.db.rows == st.db.rows
    ensures r.1.Ok? ==> st.db.tableExists
    ensures r.1.Ok? ==> (r.1.value.None? <==> Select(st.db.rows, SettingsOf(st.conn.configuration), now).None?)
    ensures r.1.Ok? && r.1.value.Some? ==>
      Select(st.db.rows, SettingsOf(st.conn.configuration), now) == Some(r.1.value.value.id) &&
      r.1.value.value.row == st.db.rows[r.1.value.value.id]
    ensures r.1 == Ok(None) ==> r.0.db.rows == st.db.rows && r.0.conn.queueEmptiedAt == Some(now)
    ensures r.1.Ok? && r.1.value.Some? ==>
      var f := r.1.value.value;
      r.0.db.rows == st.db.rows[f.id := f.row.(deliveredAt := Some(now))] && r.0.conn.queueEmptiedAt.None?
    ensures Execute(st.db).1 == Some(TableNotFound) ==> r.1 == Err(TableNotFound)
    ensures FaultFree(st.db) ==> r.1.Ok? && FaultFree(r.0.db)
  {
    var s := SettingsOf(st.conn.configuration);
    var (db1, f1) := Execute(st.db);
    if f1.Some? then (st.(db := db1), Err(f1.value))
    else
      match Select(db1.rows, s, now)
      case None => (State(st.conn.(queueEmptiedAt := Some(now)), db1), Ok(None))
      case Some(id) =>
        var conn1 := st.conn.(queueEmptiedAt := None);
        var (db2, f2) := Execute(db1);
        if f2.Some? then (State(conn1, db2), Err(f2.value))
        else
          var row := db1.rows[id];
          (State(conn1, db2.(rows := db2.rows[id := row.(deliveredAt := Some(now))])), Ok(Some(Fetched(id, row))))
  }

  /**
   * `get`: the transaction is retried from the start after a missing table while
   * automatic setup is on; setup switches it off, so there is at most one retry.
   */
  function Get(st: State, now: int): (r: (State, Result<Option<Fetched>, DbError>))
    ensures
      var (st1, res) := GetOnce(st, now);
      r == if res == Err(TableNotFound) && st.conn.autoSetup then GetOnce(st1.(conn := Setup(st1.conn)), now) else (st1, res)
    ensures r.0.conn.configuration == st.conn.configuration
    ensures r.0.conn.autoSetup ==> st.conn.autoSetup
    ensures r.0.db == st.db.(injected := r.0.db.injected, rows := r.0.db.rows)
    ensures r.1.Err? ==> r.0.db.rows == st.db.rows
    ensures r.1 == Err(TableNotFound) ==> !r.0.conn.autoSetup
    ensures r.1.Ok? ==> st.db.tableExists
    ensures r.1 == Ok(None) ==>
      r.0.db.rows == st.db.rows &&
      forall id :: id in st.db.rows ==> !Deliverable(st.db.rows[id], SettingsOf(st.conn.configuration), now)
    ensures r.1.Ok? && r.1.value.Some? ==>
      var f := r.1.value.value;
      var s := SettingsOf(st.conn.configuration);
      && f.id in st.db.rows
      && f.row == st.db.rows[f.id]
      && Deliverable(f.row, s, now)
      && (forall id :: id in st.db.rows && Deliverable(st.db.rows[id], s, now) ==>
            f.row.availableAt <= st.db.rows[id].availableAt)
      && r.0.db.rows == st.db.rows[f.id := f.row.(deliveredAt := Some(now))]
    decreases st.conn.autoSetup
    ensures FaultFree(st.db) ==> r.1.Ok? && FaultFree(r.0.db)
  {
    var (st1, res) := GetOnce(st, now);
    if res == Err(TableNotFound) && st1.conn.autoSetup then Get(st1.(conn := Setup(st1.conn)), now)
    else (st1, res)
  }

  // ---------------------------------------------------------------------------
  // send
  // ---------------------------------------------------------------------------

  /** Failures of `send`: a DBAL exception, or the type error a null template name raises. */
  datatype SendError = SendFailed(cause: DbError) | NullTemplate

  /** The row belongs to the (order id, template name) pair `send` deduplicates on. */
  predicate HasKey(r: Row, orderId: int, template: string) {
    r.orderId == orderId && r.templateName == Some(template)
  }

  function KeyIds(rows: Rows, orderId: int, template: string): set<nat> {
    set id | id in rows && HasKey(rows[id], orderId, template)
  }

  /** `createQueryBuilderCheckRow`: the id of some row with the pair, whatever its `handled` state. */
  function CheckRow(rows: Rows, orderId: int, template: string): (r: Option<nat>)
    ensures r.Some? ==> r.value in rows && HasKey(rows[r.value], orderId, template)
    ensures r.None? <==> KeyIds(rows, orderId, template) == {}
  {
    var ids := KeyIds(rows, orderId, template);
    if ids == {} then None else Some(First(ids, Unkeyed))
  }

  /** `sprintf('%d', $a / $b)`: the quotient truncated toward zero. */
  function TruncDiv(a: int, b: int): (q: int)
    requires b > 0
    ensures a >= 0 ==> 0 <= q && q * b <= a < q * b + b
    ensures a < 0 ==> q <= 0 && a <= q * b < a + b
  {
    if a >= 0 then a / b else -((-a) / b)
  }

  /**
   * The row `send` binds as its statement's parameters: the configured names,
   * unhandled, created now and available after the delay in milliseconds, counted in
   * whole seconds. The INSERT leaves `delivered_at`, `push_sent` and `email_sent` to
   * the column defaults, taken here as null, false and false.
   */
  function SentRow(s: Settings, now: int, orderId: int, encoded: string, headers: Headers, delay: int): (r: Row)
    requires s.templateName.Some?
    ensures r.orderId == orderId && r.encodedMessage == encoded && r.headers == headers
    ensures r.providerName == s.providerName && r.templateName == s.templateName
    ensures !r.handled && !r.pushSent && !r.emailSent && r.deliveredAt.None?
    ensures r.createdAt == now
    ensures delay >= 0 ==> now <= r.availableAt && (r.availableAt - now) * 1000 <= delay < (r.availableAt - now + 1) * 1000
    ensures delay < 0 ==> r.availableAt <= now && delay <= (r.availableAt - now) * 1000 < delay + 1000
  {
    Row(orderId, encoded, headers, s.providerName, s.templateName, false, false, false,
        now, now + TruncDiv(delay, 1000), None)
  }

  /** The update path's SET list: the columns `send` writes replace those of the row found. */
  function Overwrite(existing: Row, written: Row): (r: Row)
    ensures r.deliveredAt == existing.deliveredAt && r.pushSent == existing.pushSent && r.emailSent == existing.emailSent
    ensures r.(deliveredAt := written.deliveredAt, pushSent := written.pushSent, emailSent := written.emailSent) == written
  {
    existing.(orderId := written.orderId, encodedMessage := written.encodedMessage, headers := written.headers,
              providerName := written.providerName, templateName := written.templateName,
              handled := written.handled, createdAt := written.createdAt, availableAt := written.availableAt)
  }

  /** `after` is `before` with the row `w` overwritten by the columns `send` writes, and nothing else changed. */
  predicate UpdatedInPlace(before: Rows, after: Rows, w: nat, written: Row) {
    w in before && after == before[w := Overwrite(before[w], written)]
  }

  /** `after` is `before` with `written` added under an id it did not hold, and nothing else changed. */
  predicate Inserted(before: Rows, after: Rows, id: nat, written: Row) {
    id !in before && after == before[id := written]
  }

  /**
   * `send`: an upsert keyed on (order id, configured template name). A row already
   * holding the pair is overwritten in place; otherwise a new row is inserted.
   * `delay` is in milliseconds; on the update path the returned id is whatever the
   * driver reports as its last inserted id.
   */
  function Send(st: State, now: int, orderId: int, encoded: string, headers: Headers, delay: int)
    : (r: (State, Result<nat, SendError>))
    ensures r.0.conn.configuration == st.conn.configuration && r.0.conn.queueEmptiedAt == st.conn.queueEmptiedAt
    ensures r.0.conn.autoSetup ==> st.conn.autoSetup
    ensures r.1 == Err(NullTemplate) <==> SettingsOf(st.conn.configuration).templateName.None?
    ensures r.1 == Err(NullTemplate) ==> r.0 == st
    ensures r.1.Err? ==> r.0.db.rows == st.db.rows
    ensures r.1.Ok? ==> st.db.tableExists
    ensures Valid(st.db) ==> Valid(r.0.db)
    ensures r.1.Ok? && Valid(st.db) ==>
      var s := SettingsOf(st.conn.configuration);
      var written := SentRow(s, now, orderId, encoded, headers, delay);
      match CheckRow(st.db.rows, orderId, s.templateName.value)
      case Some(w) => UpdatedInPlace(st.db.rows, r.0.db.rows, w, written)
      case None => r.1.value == st.db.nextId && Inserted(st.db.rows, r.0.db.rows, r.1.value, written)
    ensures FaultFree(st.db) && SettingsOf(st.conn.configuration).templateName.Some? ==>
      r.1.Ok? && FaultFree(r.0.db)
  {
    var s := SettingsOf(st.conn.configuration);
    if s.templateName.None? then (st, Err(NullTemplate))
    else
      var template := s.templateName.value;
      var (c1, db1, f1) := ExecuteWithRecovery(st.conn, st.db);
      if f1.Some? then (State(c1, db1), Err(SendFailed(f1.value)))
      else
        var checkRowId := CheckRow(db1.rows, orderId, template);
        var (c2, db2, f2) := ExecuteWithRecovery(c1, db1);
        if f2.Some? then (State(c2, db2), Err(SendFailed(f2.value)))
        else
          var written := SentRow(s, now, orderId, encoded, headers, delay);
          if checkRowId.None? || checkRowId.value == 0 then
            var id := db2.nextId;
            (State(c2, db2.(rows := db2.rows[id := written], nextId := id + 1, lastInsertId := id)), Ok(id))
          else
            var id := checkRowId.value;
            (State(c2, db2.(rows := db2.rows[id := Overwrite(db2.rows[id], written)])), Ok(db2.lastInsertId))
  }

  // ---------------------------------------------------------------------------
  // ack and reject
  // ---------------------------------------------------------------------------

  /**
   * `ack`: marks the row handled through a direct driver update (no missing-table
   * recovery) and reports whether a row matched the id.
   */
  function Ack(st: State, id: nat): (r: (State, Result<bool, TransportException>))
    ensures r.0.conn == st.conn
    ensures r.0.db == st.db.(injected := r.0.db.injected, rows := r.0.db.rows)
    ensures r.1.Err? <==> Execute(st.db).1.Some?
    ensures r.1.Err? ==> r.1.error.cause == Execute(st.db).1.value && r.0.db.rows == st.db.rows
    ensures r.1.Ok? ==> (r.1.value <==> id in st.db.rows)
    ensures r.0.db.rows.Keys == st.db.rows.Keys
    ensures r.1.Ok? && id in st.db.rows ==> r.0.db.rows[id] == st.db.rows[id].(handled := true)
    ensures forall k :: k in st.db.rows && k != id ==> r.0.db.rows[k] == st.db.rows[k]
    ensures FaultFree(st.db) ==> r.1.Ok? && FaultFree(r.0.db)
  {
    var (db1, f) := Execute(st.db);
    if f.Some? then (State(st.conn, db1), Err(TransportException(f.value)))
    else
      var affected := id in db1.rows;
      var rows := if affected then db1.rows[id := db1.rows[id].(handled := true)] else db1.rows;
      (State(st.conn, db1.(rows := rows)), Ok(affected))
  }

  /** `reject`: written separately in the source, with the same statement as `ack`. */
  function Reject(st: State, id: nat): (r: (State, Result<bool, TransportException>))
    ensures r.0.conn == st.conn
    ensures r.0.db.rows.Keys == st.db.rows.Keys
    ensures r.1.Ok? ==> (r.1.value <==> id in st.db.rows)
    ensures r.1.Ok? && id in st.db.rows ==> r.0.db.rows[id] == st.db.rows[id].(handled := true)
    ensures forall k :: k in st.db.rows && k != id ==> r.0.db.rows[k] == st.db.rows[k]
    ensures FaultFree(st.db) ==> r.1.Ok? && FaultFree(r.0.db)
  {
    var (db1, f) := Execute(st.db);
    if f.Some? then (State(st.conn, db1), Err(TransportException(f.value)))
    else
      var affected := id in db1.rows;
      var rows := if affected then db1.rows[id := db1.rows[id].(handled := true)] else db1.rows;
      (State(st.conn, db1.(rows := rows)), Ok(affected))
  }

  // ---------------------------------------------------------------------------
  // Introspection
  // ---------------------------------------------------------------------------

  /** `getMessageCount`: counts the available rows; handled rows are not excluded. */
  function GetMessageCount(st: State, now: int): (r: (State, Result<nat, DbError>))
    ensures r.0.conn.configuration == st.conn.configuration
    ensures r.0.conn.autoSetup ==> st.conn.autoSetup
    ensures r.0.db == st.db.(injected := r.0.db.injected)
    ensures r.1.Ok? ==> st.db.tableExists
    ensures r.1.Ok? ==> r.1.value == |AvailableIds(st.db.rows, SettingsOf(st.conn.configuration), now)|
    ensures FaultFree(st.db) ==> r.1.Ok? && r.0 == st
  {
    var (c1, db1, f) := ExecuteWithRecovery(st.conn, st.db);
    if f.Some? then (State(c1, db1), Err(f.value))
    else (State(c1, db1), Ok(|AvailableIds(db1.rows, SettingsOf(c1.configuration), now)|))
  }

  function IdsOf(fs: seq<Fetched>): set<nat> {
    set i | 0 <= i < |fs| :: fs[i].id
  }

  /** The rows behind a list of ids, in that order. */
  function FetchRows(rows: Rows, ids: seq<nat>): (r: seq<Fetched>)
    requires forall i :: 0 <= i < |ids| ==> ids[i] in rows
    ensures |r| == |ids|
    ensures forall i :: 0 <= i < |r| ==> r[i].id == ids[i] && r[i].row == rows[ids[i]]
  {
    seq(|ids|, i requires 0 <= i < |ids| => Fetched(ids[i], rows[ids[i]]))
  }

  /** `setMaxResults`: at most `limit` of the ids, from the front. */
  function Limit(ids: seq<nat>, limit: Option<nat>): (r: seq<nat>)
    ensures |r| == if limit.Some? && limit.value < |ids| then limit.value else |ids|
    ensures forall i :: 0 <= i < |r| ==> r[i] == ids[i]
  {
    if limit.Some? && limit.value < |ids| then ids[..limit.value] else ids
  }

  /** The available rows in ascending id order, at most `limit` of them. */
  function AvailableRows(rows: Rows, s: Settings, now: int, limit: Option<nat>): (r: seq<Fetched>)
    ensures forall i :: 0 <= i < |r| ==>
      r[i].id in rows && r[i].row == rows[r[i].id] && Available(r[i].row, s, now)
    ensures forall i, j :: 0 <= i < j < |r| ==> r[i].id < r[j].id
    ensures |r| == if limit.Some? && limit.value < |AvailableIds(rows, s, now)| then limit.value
                   else |AvailableIds(rows, s, now)|
    ensures limit.None? ==> IdsOf(r) == AvailableIds(rows, s, now)
  {
    var all := SortedIds(AvailableIds(rows, s, now));
    var r := FetchRows(rows, Limit(all, limit));
    assert limit.None? ==> forall id :: id in AvailableIds(rows, s, now) ==> id in IdsOf(r) by {
      if limit.None? {
        forall id | id in AvailableIds(rows, s, now)
          ensures id in IdsOf(r)
        {
          var i :| 0 <= i < |all| && all[i] == id;
          assert r[i].id == id;
        }
      }
    }
    r
  }

  /**
   * `findAll`: the available rows, at most `limit` of them when a limit is given.
   * SQL leaves their order open; the model lists them by ascending id.
   */
  function FindAll(st: State, now: int, limit: Option<nat>): (r: (State, Result<seq<Fetched>, DbError>))
    ensures r.0.conn.configuration == st.conn.configuration
    ensures r.0.conn.autoSetup ==> st.conn.autoSetup
    ensures r.0.db == st.db.(injected := r.0.db.injected)
    ensures r.1.Ok? ==> st.db.tableExists
    ensures r.1.Ok? ==> r.1.value == AvailableRows(st.db.rows, SettingsOf(st.conn.configuration), now, limit)
    ensures FaultFree(st.db) ==> r.1.Ok? && r.0 == st
  {
    var (c1, db1, f) := ExecuteWithRecovery(st.conn, st.db);
    if f.Some? then (State(c1, db1), Err(f.value))
    else (State(c1, db1), Ok(AvailableRows(db1.rows, SettingsOf(c1.configuration), now, limit)))
  }

  /** `find`: the row with the id whatever its state, or null when there is none. */
  function Find(st: State, id: nat): (r: (State, Result<Option<Fetched>, DbError>))
    ensures r.0.conn.configuration == st.conn.configuration
    ensures r.0.conn.autoSetup ==> st.conn.autoSetup
    ensures r.0.db == st.db.(injected := r.0.db.injected)
    ensures r.1.Ok? ==> st.db.tableExists
    ensures r.1.Ok? ==> (r.1.value.Some? <==> id in st.db.rows)
    ensures r.1.Ok? && r.1.value.Some? ==> r.1.value.value == Fetched(id, st.db.rows[id])
    ensures FaultFree(st.db) ==> r.1.Ok? && r.0 == st
  {
    var (c1, db1, f) := ExecuteWithRecovery(st.conn, st.db);
    if f.Some? then (State(c1, db1), Err(f.value))
    else if id in db1.rows then (State(c1, db1), Ok(Some(Fetched(id, db1.rows[id]))))
    else (State(c1, db1), Ok(None))
  }
}
