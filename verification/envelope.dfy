/**
 * Messenger envelopes as the transport sees them: a message and the list of stamps
 * attached to it, oldest first.
 */
module Envelopes {
  import opened Wrappers

  /** A notification message; the store reads only its order id. */
  datatype Message = Message(orderId: int, content: string)

  datatype Stamp =
    | DelayStamp(delay: int)
    | DoctrineReceivedStamp(id: nat)
    | TransportMessageIdStamp(id: nat)
    | OtherStamp(name: string)

  /** The stamp class `Envelope::last` looks a stamp up by. */
  datatype StampClass = Delay | Received | TransportId | OtherClass(name: string)

  function ClassOf(s: Stamp): StampClass {
    match s
    case DelayStamp(_) => Delay
    case DoctrineReceivedStamp(_) => Received
    case TransportMessageIdStamp(_) => TransportId
    case OtherStamp(name) => OtherClass(name)
  }

  datatype Envelope = Envelope(message: Message, stamps: seq<Stamp>)

  /** `Envelope::with`: the same message with the stamps appended. */
  function With(e: Envelope, added: seq<Stamp>): (r: Envelope)
    ensures r.message == e.message
    ensures |r.stamps| == |e.stamps| + |added|
    ensures r.stamps[..|e.stamps|] == e.stamps && r.stamps[|e.stamps|..] == added
  {
    Envelope(e.message, e.stamps + added)
  }

  /** The position of the last stamp of class `c`, if the envelope has one. */
  function LastOf(stamps: seq<Stamp>, c: StampClass): (r: Option<nat>)
    ensures r.None? <==> forall i :: 0 <= i < |stamps| ==> ClassOf(stamps[i]) != c
    ensures r.Some? ==> r.value < |stamps| && ClassOf(stamps[r.value]) == c
    ensures r.Some? ==> forall j :: r.value < j < |stamps| ==> ClassOf(stamps[j]) != c
    decreases |stamps|
  {
    if stamps == [] then None
    else if ClassOf(stamps[|stamps| - 1]) == c then Some(|stamps| - 1)
    else LastOf(stamps[..|stamps| - 1], c)
  }

  /** `$envelope->last(DelayStamp::class)?->getDelay()`. */
  function LastDelay(e: Envelope): (r: Option<int>)
    ensures r.None? <==> LastOf(e.stamps, Delay).None?
    ensures r.Some? ==> e.stamps[LastOf(e.stamps, Delay).value] == DelayStamp(r.value)
  {
    match LastOf(e.stamps, Delay)
    case None => None
    case Some(i) => Some(e.stamps[i].delay)
  }

  /** `$envelope->last(DoctrineReceivedStamp::class)?->getId()`. */
  function LastReceivedId(e: Envelope): (r: Option<nat>)
    ensures r.None? <==> LastOf(e.stamps, Received).None?
    ensures r.Some? ==> e.stamps[LastOf(e.stamps, Received).value] == DoctrineReceivedStamp(r.value)
  {
    match LastOf(e.stamps, Received)
    case None => None
    case Some(i) => Some(e.stamps[i].id)
  }

  /** Appending stamps of another class does not change which stamp of class `c` is last. */
  lemma {:induction false} LastOfAppendOther(stamps: seq<Stamp>, added: seq<Stamp>, c: StampClass)
    requires forall i :: 0 <= i < |added| ==> ClassOf(added[i]) != c
    ensures LastOf(stamps + added, c) == LastOf(stamps, c)
    decreases |added|
  {
    if added != [] {
      var shorter := added[..|added| - 1];
      assert (stamps + added)[..|stamps + added| - 1] == stamps + shorter;
      LastOfAppendOther(stamps, shorter, c);
    } else {
      assert stamps + added == stamps;
    }
  }
}
