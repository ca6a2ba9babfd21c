/**
 * Properties of the queue store that relate several operations: deduplication by
 * `send`, what `get` hides and for how long, what `ack` and `reject` change, how the
 * introspection reads agree, and the missing-table retry.
 */
module ConnectionProperties {
  import opened Wrappers
  import opened Config
  import opened Connection

  /** No two rows share an (order id, template name) pair. */
  predicate UniqueKeys(rows: Rows) {
    forall a, b :: a in rows && b in rows && a != b && rows[a].templateName.Some? ==>
      !HasKey(rows[b], rows[a].orderId, rows[a].templateName.value)
  }

  /** Under unique keys, at most one row holds any pair. */
  lemma UniqueKeysAtMostOne(rows: Rows, orderId: int, t: string, x: nat, y: nat)
    requires UniqueKeys(rows)
    requires x in KeyIds(rows, orderId, t) && y in KeyIds(rows, orderId, t)
    ensures x == y
  {
  }

  /**
   * The constructor reads a raw `auto_setup` by truthiness: the string "false" given
   * directly switches automatic setup on, while `buildConfiguration` turns the same
   * option into false.
   */
  lemma RawFalseStringEnablesAutoSetup(dsn: Dsn)
    requires "auto_setup" !in dsn.query
    ensures NewConnection(map["auto_setup" := Str("false")]).autoSetup
    ensures BuildConfiguration(Some(dsn), map["auto_setup" := Str("false")]).Ok? ==>
      BuildConfiguration(Some(dsn), map["auto_setup" := Str("false")]).value["auto_setup"] == Bool(false)
  {
    var options := map["auto_setup" := Str("false")];
    TruthyNotFilterBool();
    assert Pick("auto_setup", dsn.query, options) == Str("false");
  }

  /** `ack` and `reject` are the same transition. */
  lemma AckIsReject(st: State, id: nat)
    ensures Ack(st, id) == Reject(st, id)
  {
  }

  /** A successful `send` leaves every row of another pair exactly as it was. */
  lemma SendTouchesOnlyItsPair(st: State, now: int, orderId: int, encoded: string, headers: Headers, delay: int)
    requires Valid(st.db)
    requires Send(st, now, orderId, encoded, headers, delay).1.Ok?
    ensures
      var t := SettingsOf(st.conn.configuration).templateName.value;
      var rows' := Send(st, now, orderId, encoded, headers, delay).0.db.rows;
      forall id :: id in st.db.rows && !HasKey(st.db.rows[id], orderId, t) ==>
        id in rows' && rows'[id] == st.db.rows[id]
  {
  }

  /**
   * With a non-negative delay, every row a successful `send` writes was created now
   * and becomes available no earlier than now.
   */
  lemma SendStampsWrittenRow(st: State, now: int, orderId: int, encoded: string, headers: Headers, delay: int)
    requires Valid(st.db) && delay >= 0
    requires Send(st, now, orderId, encoded, headers, delay).1.Ok?
    ensures
      var rows' := Send(st, now, orderId, encoded, headers, delay).0.db.rows;
      forall id :: id in rows' && (id !in st.db.rows || rows'[id] != st.db.rows[id]) ==>
        rows'[id].createdAt == now <= rows'[id].availableAt
  {
  }

  /** After `send`, the rows holding its pair are exactly the ones held before, or just the new row. */
  lemma SendKeyIds(st: State, now: int, orderId: int, encoded: string, headers: Headers, delay: int)
    requires Valid(st.db)
    requires Send(st, now, orderId, encoded, headers, delay).1.Ok?
    ensures
      var t := SettingsOf(st.conn.configuration).templateName.value;
      var after := Send(st, now, orderId, encoded, headers, delay);
      var before := KeyIds(st.db.rows, orderId, t);
      if before == {} then KeyIds(after.0.db.rows, orderId, t) == {after.1.value}
      else KeyIds(after.0.db.rows, orderId, t) == before
  {
  }

  /** A `send` leaves exactly one row for its pair when there was at most one before. */
  lemma SendLeavesOneRowForKey(st: State, now: int, orderId: int, encoded: string, headers: Headers, delay: int)
    requires Valid(st.db)
    requires Send(st, now, orderId, encoded, headers, delay).1.Ok?
    requires |KeyIds(st.db.rows, orderId, SettingsOf(st.conn.configuration).templateName.value)| <= 1
    ensures
      var t := SettingsOf(st.conn.configuration).templateName.value;
      |KeyIds(Send(st, now, orderId, encoded, headers, delay).0.db.rows, orderId, t)| == 1
  {
    SendKeyIds(st, now, orderId, encoded, headers, delay);
    var t := SettingsOf(st.conn.configuration).templateName.value;
    var before := KeyIds(st.db.rows, orderId, t);
    if before != {} {
      var w := CheckRow(st.db.rows, orderId, t).value;
      assert w in before;
      assert before - {w} == {} by {
        assert |before - {w}| == |before| - 1;
      }
      assert before == {w};
    }
  }

  /** `send` keeps every pair on at most one row. */
  lemma {:induction false} SendPreservesUniqueKeys(st: State, now: int, orderId: int, encoded: string, headers: Headers, delay: int)
    requires Valid(st.db) && UniqueKeys(st.db.rows)
    ensures UniqueKeys(Send(st, now, orderId, encoded, headers, delay).0.db.rows)
  {
    var after := Send(st, now, orderId, encoded, headers, delay);
    if after.1.Ok? {
      var t := SettingsOf(st.conn.configuration).templateName.value;
      var rows, rows' := st.db.rows, after.0.db.rows;
      SendKeyIds(st, now, orderId, encoded, headers, delay);
      SendTouchesOnlyItsPair(st, now, orderId, encoded, headers, delay);
      forall a, b | a in rows' && b in rows' && a != b && rows'[a].templateName.Some?
        ensures !HasKey(rows'[b], rows'[a].orderId, rows'[a].templateName.value)
      {
        var before := KeyIds(rows, orderId, t);
        if HasKey(rows'[a], orderId, t) {
          forall x | x in KeyIds(rows', orderId, t)
            ensures x == a
          {
            assert a in KeyIds(rows', orderId, t);
            if before == {} {
              assert KeyIds(rows', orderId, t) == {after.1.value};
            } else {
              assert KeyIds(rows', orderId, t) == before;
              UniqueKeysAtMostOne(rows, orderId, t, x, a);
            }
          }
          assert b !in KeyIds(rows', orderId, t);
        } else {
          assert a !in KeyIds(rows', orderId, t);
          assert a in rows && rows'[a] == rows[a];
          if !HasKey(rows'[b], orderId, t) {
            assert b !in KeyIds(rows', orderId, t);
            assert b in rows && rows'[b] == rows[b];
          }
        }
      }
    }
  }

  /**
   * Sending the same order twice under one template leaves a single row for the
   * pair, carrying the second payload and pending again.
   */
  lemma {:induction false} ResendSupersedes(
    st: State, now: int, later: int, orderId: int, first: string, second: string, headers: Headers)
    requires Valid(st.db) && FaultFree(st.db)
    requires SettingsOf(st.conn.configuration).templateName.Some?
    requires KeyIds(st.db.rows, orderId, SettingsOf(st.conn.configuration).templateName.value) == {}
    ensures
      var t := SettingsOf(st.conn.configuration).templateName.value;
      var once := Send(st, now, orderId, first, headers, 0);
      var twice := Send(once.0, later, orderId, second, headers, 0);
      && once.1.Ok? && twice.1.Ok?
      && KeyIds(twice.0.db.rows, orderId, t) == {once.1.value}
      && twice.0.db.rows[once.1.value].encodedMessage == second
      && !twice.0.db.rows[once.1.value].handled
      && twice.0.db.rows.Keys == st.db.rows.Keys + {once.1.value}
  {
    var t := SettingsOf(st.conn.configuration).templateName.value;
    var once := Send(st, now, orderId, first, headers, 0);
    SendKeyIds(st, now, orderId, first, headers, 0);
    assert CheckRow(once.0.db.rows, orderId, t) == Some(once.1.value);
    SendKeyIds(once.0, later, orderId, second, headers, 0);
  }

  /**
   * A message's life in an otherwise empty queue: `send` stores it, `get` hands it
   * out with its row id, `ack` marks it handled, after which no `get` returns it
   * while `find` still shows the row.
   */
  lemma SendGetAckLifecycle(
    st: State, now: int, later: int, orderId: int, encoded: string, headers: Headers)
    requires Valid(st.db) && FaultFree(st.db) && st.db.rows == map[]
    requires
      var s := SettingsOf(st.conn.configuration);
      s.templateName.Some? && s.providerName.Some?
    ensures
      var sent := Send(st, now, orderId, encoded, headers, 0);
      var got := Get(sent.0, now);
      var acked := Ack(got.0, sent.1.value);
      && sent.1.Ok?
      && got.1 == Ok(Some(Fetched(sent.1.value, sent.0.db.rows[sent.1.value])))
      && got.1.value.value.row.encodedMessage == encoded
      && acked.1 == Ok(true)
      && Get(acked.0, later).1 == Ok(None)
      && Find(acked.0, sent.1.value).1.value.value.row.handled
  {
    var s := SettingsOf(st.conn.configuration);
    var sent := Send(st, now, orderId, encoded, headers, 0);
    var id := sent.1.value;
    assert sent.0.db.rows == map[id := SentRow(s, now, orderId, encoded, headers, 0)];
    assert DeliverableIds(sent.0.db.rows, s, now) == {id};
  }

  /** A row `ack` marked handled is never returned by `get`. */
  lemma AckedRowNotDelivered(st: State, id: nat, now: int)
    requires Ack(st, id).1 == Ok(true)
    ensures
      var got := Get(Ack(st, id).0, now).1;
      !(got.Ok? && got.value.Some? && got.value.value.id == id)
  {
  }

  /** Once `get` has stamped a row, no `get` returns it again until the redeliver timeout has passed. */
  lemma NotRedeliveredWithinTimeout(st: State, now: int, later: int)
    requires Get(st, now).1.Ok? && Get(st, now).1.value.Some?
    requires later <= now + SettingsOf(st.conn.configuration).redeliverTimeout
    ensures
      var id := Get(st, now).1.value.value.id;
      var again := Get(Get(st, now).0, later).1;
      !(again.Ok? && again.value.Some? && again.value.value.id == id)
  {
  }

  /** After the redeliver timeout a stamped, unacknowledged row is deliverable again. */
  lemma RedeliverableAfterTimeout(st: State, now: int, later: int)
    requires Get(st, now).1.Ok? && Get(st, now).1.value.Some?
    requires later >= now && later > now + SettingsOf(st.conn.configuration).redeliverTimeout
    ensures
      var f := Get(st, now).1.value.value;
      var rows := Get(st, now).0.db.rows;
      f.id in rows && Deliverable(rows[f.id], SettingsOf(st.conn.configuration), later)
  {
  }

  /**
   * An acknowledged row is never delivered again, but the count and `findAll` do not
   * filter on `handled`: the row drops out of the available set for the redeliver
   * timeout after `get` stamped it, and is back in it for good from then on.
   */
  lemma AckedRowAvailableAgain(st: State, now: int, later: int)
    requires Get(st, now).1.Ok? && Get(st, now).1.value.Some?
    requires Ack(Get(st, now).0, Get(st, now).1.value.value.id).1.Ok?
    requires later >= now
    ensures
      var id := Get(st, now).1.value.value.id;
      var rows := Ack(Get(st, now).0, id).0.db.rows;
      var s := SettingsOf(st.conn.configuration);
      && id in rows && rows[id].handled
      && (id in AvailableIds(rows, s, later) <==> later > now + s.redeliverTimeout)
  {
  }

  /** `getMessageCount` and an unlimited `findAll` on the same state agree. */
  lemma CountMatchesFindAll(st: State, now: int)
    requires GetMessageCount(st, now).1.Ok? && FindAll(st, now, None).1.Ok?
    ensures |FindAll(st, now, None).1.value| == GetMessageCount(st, now).1.value
  {
  }

  /** The count does not filter on `handled`, so `ack` leaves it as it was. */
  lemma AckKeepsMessageCount(st: State, id: nat, now: int)
    ensures
      var s := SettingsOf(st.conn.configuration);
      AvailableIds(Ack(st, id).0.db.rows, s, now) == AvailableIds(st.db.rows, s, now)
  {
  }

  /** The row `get` returns leaves the available set at once, for a non-negative timeout. */
  lemma DeliveredRowLeavesCount(st: State, now: int)
    requires Get(st, now).1.Ok? && Get(st, now).1.value.Some?
    requires SettingsOf(st.conn.configuration).redeliverTimeout >= 0
    ensures
      var s := SettingsOf(st.conn.configuration);
      var id := Get(st, now).1.value.value.id;
      AvailableIds(Get(st, now).0.db.rows, s, now) == AvailableIds(st.db.rows, s, now) - {id}
  {
    var s := SettingsOf(st.conn.configuration);
    var f := Get(st, now).1.value.value;
    var rows, rows' := st.db.rows, Get(st, now).0.db.rows;
    assert rows' == rows[f.id := f.row.(deliveredAt := Some(now))];
    forall k
      ensures k in AvailableIds(rows', s, now) <==> k in AvailableIds(rows, s, now) - {f.id}
    {
      if k == f.id {
        assert !Available(rows'[k], s, now);
      }
    }
  }

  /** With the table missing for good, `get` fails after at most one retry and leaves automatic setup off. */
  lemma MissingTableGet(st: State, now: int)
    requires !st.db.tableExists && st.db.injected == []
    ensures Get(st, now).1 == Err(TableNotFound)
    ensures !Get(st, now).0.conn.autoSetup
    ensures Get(st, now).0.db.rows == st.db.rows
  {
  }

  /** A table missing only on the first pass is recovered by the single retry. */
  lemma TransientMissingTableRecovered(st: State, now: int)
    requires st.conn.autoSetup
    requires st.db.tableExists && st.db.injected == [Some(TableNotFound)]
    ensures Get(st, now).1.Ok?
    ensures !Get(st, now).0.conn.autoSetup
    ensures Get(st, now).0.db.injected == []
  {
  }
}
