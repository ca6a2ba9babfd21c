/**
 * `DoctrineReceiver`: wraps the store's `get` in envelopes stamped with the row id,
 * absorbs a bounded number of consecutive retryable failures, and maps envelopes
 * back to rows for `ack` and `reject`.
 */
module DoctrineReceiver {
  import opened Wrappers
  import opened Config
  import opened Envelopes
  import Connection

  /** Consecutive retryable failures after which `get` gives up with a transport error. */
  const MaxRetries: nat := 3

  /** The receiver's own state: the count of consecutive retryable failures so far. */
  datatype Receiver = Receiver(retryingSafetyCounter: nat)

  datatype DecodeFailure = MessageDecodingFailed(reason: string)

  /** The serializer's `decode`: a body and headers to an envelope, or a decoding failure. */
  type Decoder = (string, Connection.Headers) -> Result<Envelope, DecodeFailure>

  datatype ReceiveError =
    | Transport(exception: Connection.TransportException)
    | DecodingFailed(failure: DecodeFailure)
    | NoPayloadModels
    | MissingReceivedStamp
    | ReturnTypeMismatch

  function TransportOf(e: Connection.DbError): ReceiveError {
    Transport(Connection.TransportException(e))
  }

  /** The headers the decoder is handed for a payload model: the row's, with `type` set to it. */
  function TypedHeaders(row: Connection.Row, model: Value): (h: Connection.Headers)
    ensures h.Keys == row.headers.Keys + {"type"} && h["type"] == model
    ensures forall k :: k in row.headers && k != "type" ==> h[k] == row.headers[k]
  {
    row.headers["type" := model]
  }

  /**
   * `createEnvelopeFromData`: decodes the row with the first configured payload
   * model and stamps the result with the row id. A decoding failure rejects the
   * row and is raised again, so no later model is tried; with no model configured
   * there is no envelope at all.
   */
  function CreateEnvelopeFromData(st: Connection.State, f: Connection.Fetched, decode: Decoder)
    : (r: (Connection.State, Result<Envelope, ReceiveError>))
    ensures SettingsOf(st.conn.configuration).models == [] ==> r == (st, Err(NoPayloadModels))
    ensures r.1.Ok? ==>
      var models := SettingsOf(st.conn.configuration).models;
      && |models| > 0
      && decode(f.row.encodedMessage, TypedHeaders(f.row, models[0])).Ok?
      && var decoded := decode(f.row.encodedMessage, TypedHeaders(f.row, models[0])).value;
      && r.1.value.message == decoded.message
      && r.1.value.stamps == decoded.stamps + [DoctrineReceivedStamp(f.id), TransportMessageIdStamp(f.id)]
      && LastReceivedId(r.1.value) == Some(f.id)
      && r.0 == st
    ensures
      var models := SettingsOf(st.conn.configuration).models;
      |models| > 0 && decode(f.row.encodedMessage, TypedHeaders(f.row, models[0])).Err? ==>
        && r.0 == Connection.Reject(st, f.id).0
        && r.1.Err?
        && (Connection.Reject(st, f.id).1.Ok? ==>
              r.1 == Err(DecodingFailed(decode(f.row.encodedMessage, TypedHeaders(f.row, models[0])).error)))
        && (Connection.Reject(st, f.id).1.Err? ==> r.1 == Err(Transport(Connection.Reject(st, f.id).1.error)))
  {
    var models := SettingsOf(st.conn.configuration).models;
    if |models| == 0 then (st, Err(NoPayloadModels))
    else
      match decode(f.row.encodedMessage, TypedHeaders(f.row, models[0]))
      case Ok(decoded) =>
        var e := With(decoded, [DoctrineReceivedStamp(f.id), TransportMessageIdStamp(f.id)]);
        var prefix := decoded.stamps + [DoctrineReceivedStamp(f.id)];
        assert e.stamps == prefix + [TransportMessageIdStamp(f.id)];
        LastOfAppendOther(prefix, [TransportMessageIdStamp(f.id)], Received);
        assert LastOf(prefix, Received) == Some(|prefix| - 1);
        (st, Ok(e))
      case Err(failure) =>
        var (st1, rejected) := Connection.Reject(st, f.id);
        if rejected.Err? then (st1, Err(Transport(rejected.error)))
        else (st1, Err(DecodingFailed(failure)))
  }

  /**
   * `get`: at most one envelope. A successful store call resets the counter; a
   * retryable failure yields nothing until the counter reaches `MaxRetries`, when
   * it is reset and a transport error raised; any other failure is translated at
   * once and leaves the counter alone.
   */
  function Get(rcv: Receiver, st: Connection.State, now: int, decode: Decoder)
    : (r: (Receiver, Connection.State, Result<seq<Envelope>, ReceiveError>))
    ensures rcv.retryingSafetyCounter < MaxRetries ==> r.0.retryingSafetyCounter < MaxRetries
    ensures r.2.Ok? ==> |r.2.value| <= 1
    ensures Connection.Get(st, now).1.Ok? ==> r.0.retryingSafetyCounter == 0
    ensures Connection.Get(st, now).1 == Err(Connection.RetryableError) ==>
      && r.1 == Connection.Get(st, now).0
      && (rcv.retryingSafetyCounter + 1 >= MaxRetries ==>
            r.0.retryingSafetyCounter == 0 && r.2 == Err(TransportOf(Connection.RetryableError)))
      && (rcv.retryingSafetyCounter + 1 < MaxRetries ==>
            r.0.retryingSafetyCounter == rcv.retryingSafetyCounter + 1 && r.2 == Ok([]))
    ensures Connection.Get(st, now).1.Err? && Connection.Get(st, now).1.error != Connection.RetryableError ==>
      r.0 == rcv && r.1 == Connection.Get(st, now).0 && r.2 == Err(TransportOf(Connection.Get(st, now).1.error))
    ensures Connection.Get(st, now).1 == Ok(None) ==> r.1 == Connection.Get(st, now).0 && r.2 == Ok([])
    ensures Connection.Get(st, now).1.Ok? && Connection.Get(st, now).1.value.Some? ==>
      var f := Connection.Get(st, now).1.value.value;
      var made := CreateEnvelopeFromData(Connection.Get(st, now).0, f, decode);
      && r.1 == made.0
      && (made.1.Ok? ==> r.2 == Ok([made.1.value]) && LastReceivedId(made.1.value) == Some(f.id))
      && (made.1.Err? ==> r.2 == Err(made.1.error))
  {
    var (st1, res) := Connection.Get(st, now);
    match res
    case Err(e) =>
      if e == Connection.RetryableError then
        var counter := rcv.retryingSafetyCounter + 1;
        if counter >= MaxRetries then (Receiver(0), st1, Err(TransportOf(e)))
        else (Receiver(counter), st1, Ok([]))
      else (rcv, st1, Err(TransportOf(e)))
    case Ok(None) => (Receiver(0), st1, Ok([]))
    case Ok(Some(f)) =>
      var (st2, made) := CreateEnvelopeFromData(st1, f, decode);
      match made
      case Ok(e) => (Receiver(0), st2, Ok([e]))
      case Err(err) => (Receiver(0), st2, Err(err))
  }

  /** `ack`: forwards the id of the last received stamp to the store's `ack`. */
  function Ack(st: Connection.State, e: Envelope): (r: (Connection.State, Result<(), ReceiveError>))
    ensures LastReceivedId(e).None? ==> r == (st, Err(MissingReceivedStamp))
    ensures LastReceivedId(e).Some? ==>
      var forwarded := Connection.Ack(st, LastReceivedId(e).value);
      && r.0 == forwarded.0
      && (r.1.Ok? <==> forwarded.1.Ok?)
      && (forwarded.1.Err? ==> r.1 == Err(Transport(forwarded.1.error)))
  {
    match LastReceivedId(e)
    case None => (st, Err(MissingReceivedStamp))
    case Some(id) =>
      var (st1, res) := Connection.Ack(st, id);
      if res.Err? then (st1, Err(Transport(res.error))) else (st1, Ok(()))
  }

  /** `reject`: forwards the id of the last received stamp to the store's `reject`. */
  function Reject(st: Connection.State, e: Envelope): (r: (Connection.State, Result<(), ReceiveError>))
    ensures LastReceivedId(e).None? ==> r == (st, Err(MissingReceivedStamp))
    ensures LastReceivedId(e).Some? ==>
      var forwarded := Connection.Reject(st, LastReceivedId(e).value);
      && r.0 == forwarded.0
      && (r.1.Ok? <==> forwarded.1.Ok?)
      && (forwarded.1.Err? ==> r.1 == Err(Transport(forwarded.1.error)))
  {
    match LastReceivedId(e)
    case None => (st, Err(MissingReceivedStamp))
    case Some(id) =>
      var (st1, res) := Connection.Reject(st, id);
      if res.Err? then (st1, Err(Transport(res.error))) else (st1, Ok(()))
  }

  /** `getMessageCount`: the store's count, its failures translated. */
  function GetMessageCount(st: Connection.State, now: int): (r: (Connection.State, Result<nat, ReceiveError>))
    ensures r.0 == Connection.GetMessageCount(st, now).0
    ensures r.1.Ok? <==> Connection.GetMessageCount(st, now).1.Ok?
    ensures r.1.Ok? ==> r.1.value == Connection.GetMessageCount(st, now).1.value
    ensures r.1.Err? ==> r.1 == Err(TransportOf(Connection.GetMessageCount(st, now).1.error))
  {
    var (st1, res) := Connection.GetMessageCount(st, now);
    match res
    case Ok(n) => (st1, Ok(n))
    case Err(e) => (st1, Err(TransportOf(e)))
  }

  /** `all`: the store's `findAll` rows, handed on undecoded, its failures translated. */
  function All(st: Connection.State, now: int, limit: Option<nat>)
    : (r: (Connection.State, Result<seq<Connection.Fetched>, ReceiveError>))
    ensures r.0 == Connection.FindAll(st, now, limit).0
    ensures r.1.Ok? <==> Connection.FindAll(st, now, limit).1.Ok?
    ensures r.1.Ok? ==> r.1.value == Connection.FindAll(st, now, limit).1.value
    ensures r.1.Err? ==> r.1 == Err(TransportOf(Connection.FindAll(st, now, limit).1.error))
  {
    var (st1, res) := Connection.FindAll(st, now, limit);
    match res
    case Ok(rows) => (st1, Ok(rows))
    case Err(e) => (st1, Err(TransportOf(e)))
  }

  /**
   * `find` as written: the store's row is returned where an envelope is declared,
   * so every id that is found ends in a return-type error.
   */
  function FindAsWritten(st: Connection.State, id: nat): (r: (Connection.State, Result<Option<Envelope>, ReceiveError>))
    ensures r.0 == Connection.Find(st, id).0
    ensures r.1 == Ok(None) <==> Connection.Find(st, id).1 == Ok(None)
    ensures Connection.Find(st, id).1.Err? ==> r.1 == Err(TransportOf(Connection.Find(st, id).1.error))
    ensures Connection.Find(st, id).1.Ok? && Connection.Find(st, id).1.value.Some? ==> r.1 == Err(ReturnTypeMismatch)
  {
    var (st1, res) := Connection.Find(st, id);
    match res
    case Err(e) => (st1, Err(TransportOf(e)))
    case Ok(None) => (st1, Ok(None))
    case Ok(Some(_)) => (st1, Err(ReturnTypeMismatch))
  }

  /** `find` as its declared type intends: the row found is turned into an envelope. */
  function Find(st: Connection.State, id: nat, decode: Decoder)
    : (r: (Connection.State, Result<Option<Envelope>, ReceiveError>))
    ensures r.1 == Ok(None) <==> Connection.Find(st, id).1 == Ok(None)
    ensures Connection.Find(st, id).1.Err? ==> r.1 == Err(TransportOf(Connection.Find(st, id).1.error))
    ensures r.1.Ok? && r.1.value.Some? ==> LastReceivedId(r.1.value.value) == Some(id)
  {
    var (st1, res) := Connection.Find(st, id);
    match res
    case Err(e) => (st1, Err(TransportOf(e)))
    case Ok(None) => (st1, Ok(None))
    case Ok(Some(f)) =>
      var (st2, made) := CreateEnvelopeFromData(st1, f, decode);
      match made
      case Ok(e) => (st2, Ok(Some(e)))
      case Err(err) => (st2, Err(err))
  }
}
