/**
 * Properties of the receiver and the sender: the retry budget of `get`, the
 * rejection of rows that fail to decode, the identity of `ack` and `reject`, the
 * `find` return-type defect and its correction, and a send-then-receive round trip.
 */
module TransportProperties {
  import opened Wrappers
  import opened Config
  import opened Envelopes
  import Connection
  import ConnectionProperties
  import opened DoctrineReceiver
  import DoctrineSender

  /**
   * From a fresh counter, the first two retryable failures in a row yield no
   * envelope and the third raises a transport error and resets the counter.
   */
  lemma ThirdRetryableFailureRaises(rcv: Receiver, st: Connection.State, now: int, decode: Decoder)
    requires rcv.retryingSafetyCounter == 0
    requires Connection.Get(st, now).1 == Err(Connection.RetryableError)
    requires
      var a := Get(rcv, st, now, decode);
      Connection.Get(a.1, now).1 == Err(Connection.RetryableError)
    requires
      var a := Get(rcv, st, now, decode);
      var b := Get(a.0, a.1, now, decode);
      Connection.Get(b.1, now).1 == Err(Connection.RetryableError)
    ensures
      var a := Get(rcv, st, now, decode);
      var b := Get(a.0, a.1, now, decode);
      var c := Get(b.0, b.1, now, decode);
      && a.2 == Ok([]) && a.0.retryingSafetyCounter == 1
      && b.2 == Ok([]) && b.0.retryingSafetyCounter == 2
      && c.2 == Err(TransportOf(Connection.RetryableError)) && c.0.retryingSafetyCounter == 0
  {
  }

  /** Any successful store call in between starts the count of retryable failures again. */
  lemma SuccessResetsRetryBudget(rcv: Receiver, st: Connection.State, now: int, decode: Decoder)
    requires Connection.Get(st, now).1.Ok?
    ensures Get(rcv, st, now, decode).0 == Receiver(0)
  {
  }

  /** The receiver's `ack` and `reject` are the same transition. */
  lemma ReceiverAckIsReject(st: Connection.State, e: Envelope)
    ensures Ack(st, e) == Reject(st, e)
  {
  }

  /**
   * A row that the first payload model cannot decode is marked handled, so no
   * later `get` returns it, and the receiver raises instead of returning it.
   */
  lemma DecodeFailureRejectsRow(rcv: Receiver, st: Connection.State, now: int, decode: Decoder)
    requires Connection.FaultFree(st.db)
    requires Connection.Get(st, now).1.value.Some?
    requires
      var f := Connection.Get(st, now).1.value.value;
      var models := SettingsOf(st.conn.configuration).models;
      |models| > 0 && decode(f.row.encodedMessage, TypedHeaders(f.row, models[0])).Err?
    ensures
      var f := Connection.Get(st, now).1.value.value;
      var r := Get(rcv, st, now, decode);
      && r.2.Err? && r.2.error.DecodingFailed?
      && f.id in r.1.db.rows && r.1.db.rows[f.id].handled
      && r.1.db.rows.Keys == st.db.rows.Keys
  {
  }

  /** The finding: `find` as written fails with a return-type error on every id it finds. */
  lemma FindAsWrittenFailsOnFoundRow(st: Connection.State, id: nat)
    requires Connection.FaultFree(st.db) && id in st.db.rows
    ensures FindAsWritten(st, id).1 == Err(ReturnTypeMismatch)
  {
  }

  /** The correction: `find` returns the decoded envelope, stamped with the id it was asked for. */
  lemma FindReturnsEnvelope(st: Connection.State, id: nat, decode: Decoder)
    requires Connection.FaultFree(st.db) && id in st.db.rows
    requires
      var models := SettingsOf(st.conn.configuration).models;
      var row := st.db.rows[id];
      |models| > 0 && decode(row.encodedMessage, TypedHeaders(row, models[0])).Ok?
    ensures
      var models := SettingsOf(st.conn.configuration).models;
      var row := st.db.rows[id];
      var decoded := decode(row.encodedMessage, TypedHeaders(row, models[0])).value;
      var r := Find(st, id, decode);
      && r.0 == st
      && r.1.Ok? && r.1.value.Some?
      && r.1.value.value.message == decoded.message
      && r.1.value.value.stamps == decoded.stamps + [DoctrineReceivedStamp(id), TransportMessageIdStamp(id)]
      && LastReceivedId(r.1.value.value) == Some(id)
  {
  }

  /** The serializer round trip the transport relies on: decoding what was encoded gives the envelope back. */
  predicate Inverse(encode: DoctrineSender.Encoder, decode: Decoder, e: Envelope, model: Value) {
    var enc := encode(e);
    decode(enc.body, DoctrineSender.HeadersOf(enc)["type" := model]) == Ok(e)
  }

  /**
   * An envelope sent without a delay into an empty queue comes straight back from
   * the receiver at the same instant: the same message and stamps, followed by the
   * received-stamp and transport-id stamp of the stored row.
   */
  lemma SendThenReceive(
    rcv: Receiver, st: Connection.State, now: int, e: Envelope,
    encode: DoctrineSender.Encoder, decode: Decoder)
    requires Connection.FaultFree(st.db) && Connection.Valid(st.db) && st.db.rows == map[]
    requires
      var s := SettingsOf(st.conn.configuration);
      s.templateName.Some? && s.providerName.Some? && |s.models| > 0
    requires DoctrineSender.DelayOf(e) == 0
    requires Inverse(encode, decode, e, SettingsOf(st.conn.configuration).models[0])
    ensures
      var sent := DoctrineSender.Send(st, now, e, encode);
      var got := Get(rcv, sent.0, now, decode);
      && sent.1.Ok?
      && var id := sent.1.value.stamps[|e.stamps|].id;
      && got.2 == Ok([With(e, [DoctrineReceivedStamp(id), TransportMessageIdStamp(id)])])
  {
  }
}
