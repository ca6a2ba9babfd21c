/**
 * `CustomDoctrineSender`: encodes an envelope, hands it to the store's `send` with
 * the envelope's delay, translates store failures and stamps the stored id.
 */
module DoctrineSender {
  import opened Wrappers
  import opened Envelopes
  import Connection

  /** The serializer's `encode` output: a body and, optionally, headers. */
  datatype Encoded = Encoded(body: string, headers: Option<Connection.Headers>)

  type Encoder = Envelope -> Encoded

  datatype SenderError =
    | Transport(exception: Connection.TransportException)
    | TemplateTypeError

  /** The delay handed to the store: that of the last `DelayStamp`, else 0. */
  function DelayOf(e: Envelope): (d: int)
    ensures (forall i :: 0 <= i < |e.stamps| ==> !e.stamps[i].DelayStamp?) ==> d == 0
    ensures (exists i :: 0 <= i < |e.stamps| && e.stamps[i].DelayStamp?) ==>
      exists i :: && 0 <= i < |e.stamps| && e.stamps[i] == DelayStamp(d)
                  && forall j :: i < j < |e.stamps| ==> !e.stamps[j].DelayStamp?
  {
    var last := LastDelay(e);
    if last.Some? then
      var i := LastOf(e.stamps, Delay).value;
      assert forall j :: i < j < |e.stamps| ==> ClassOf(e.stamps[j]) != Delay;
      last.value
    else
      assert forall i :: 0 <= i < |e.stamps| ==> ClassOf(e.stamps[i]) != Delay;
      0
  }

  /** `$encodedMessage['headers'] ?? []`: the encoder's headers, or none when it gave none. */
  function HeadersOf(enc: Encoded): (h: Connection.Headers)
    ensures enc.headers.Some? ==> h == enc.headers.value
    ensures enc.headers.None? ==> h == map[]
  {
    enc.headers.GetOr(map[])
  }

  /**
   * `send`: stores the encoded envelope under the envelope's delay. A DBAL failure
   * becomes a transport error and no envelope is returned; on success the input
   * envelope comes back with one `TransportMessageIdStamp` carrying the store's id.
   */
  function Send(st: Connection.State, now: int, e: Envelope, encode: Encoder)
    : (r: (Connection.State, Result<Envelope, SenderError>))
    ensures
      var enc := encode(e);
      var stored := Connection.Send(st, now, e.message.orderId, enc.body, HeadersOf(enc), DelayOf(e));
      && r.0 == stored.0
      && (stored.1.Ok? <==> r.1.Ok?)
      && (stored.1.Ok? ==>
            r.1.value.message == e.message &&
            r.1.value.stamps == e.stamps + [TransportMessageIdStamp(stored.1.value)])
      && (stored.1.Err? && stored.1.error.SendFailed? ==>
            r.1 == Err(Transport(Connection.TransportException(stored.1.error.cause))))
      && (stored.1 == Err(Connection.NullTemplate) ==> r.1 == Err(TemplateTypeError))
  {
    var enc := encode(e);
    var (st1, res) := Connection.Send(st, now, e.message.orderId, enc.body, HeadersOf(enc), DelayOf(e));
    match res
    case Ok(id) => (st1, Ok(With(e, [TransportMessageIdStamp(id)])))
    case Err(failure) =>
      if failure.SendFailed? then (st1, Err(Transport(Connection.TransportException(failure.cause))))
      else (st1, Err(TemplateTypeError))
  }
}
