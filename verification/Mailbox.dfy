/** One message waiting for one process, from kernel/src/ipc.rs. */
module Mailboxes {
  import opened Bytes

  const MAILBOX_BYTES := 64

  datatype Message = Message(from: nat, bytes: seq<Byte>)

  datatype Delivery = Delivery(from: nat, len: nat)

  datatype DeliverError = Busy | TooLong(capacity: nat) | Empty

  datatype TakeError = Nothing | TooSmall(len: nat)

  /** What a mailbox holds: at most one message, never an empty one. */
  ghost predicate Holdable(mail: Option<Message>) {
    mail.Some? ==> 0 < |mail.value.bytes| <= MAILBOX_BYTES
  }

  /** Why a delivery is refused, if it is. The size is looked at before the room. */
  function Refusal(mail: Option<Message>, bytes: seq<Byte>): (why: Option<DeliverError>)
    ensures why == None <==> mail == None && 0 < |bytes| <= MAILBOX_BYTES
    ensures why == Some(Empty) <==> |bytes| == 0
    ensures why == Some(TooLong(MAILBOX_BYTES)) <==> |bytes| > MAILBOX_BYTES
    ensures why == Some(Busy) <==> mail.Some? && 0 < |bytes| <= MAILBOX_BYTES
  {
    if bytes == [] then Some(Empty)
    else if |bytes| > MAILBOX_BYTES then Some(TooLong(MAILBOX_BYTES))
    else if mail.Some? then Some(Busy)
    else None
  }

  /** The waiting message as a sequence of none or one. */
  function Waiting(mail: Option<Message>): (s: seq<Message>) {
    if mail.Some? then [mail.value] else []
  }

  /** What was ever delivered is what was taken, in the same order, and the one that waits. */
  ghost predicate NothingLost(delivered: seq<Message>, taken: seq<Message>, mail: Option<Message>) {
    delivered == taken + Waiting(mail)
  }

  class Mailbox {
    const bytes: array<Byte>
    var waiting: Option<Delivery>
    /** Every message accepted, and every message handed on. */
    ghost var delivered: seq<Message>
    ghost var taken: seq<Message>

    ghost predicate Valid()
      reads this, bytes
    {
      && bytes.Length == MAILBOX_BYTES
      && (waiting.Some? ==> 0 < waiting.value.len <= MAILBOX_BYTES)
      && NothingLost(delivered, taken, Contents())
    }

    ghost function Contents(): (mail: Option<Message>)
      requires bytes.Length == MAILBOX_BYTES && (waiting.Some? ==> waiting.value.len <= MAILBOX_BYTES)
      reads this, bytes
    {
      if waiting.None? then None else Some(Message(waiting.value.from, bytes[..waiting.value.len]))
    }

    constructor ()
      ensures Valid() && fresh(bytes) && Contents() == None && delivered == [] && taken == []
    {
      bytes := new Byte[MAILBOX_BYTES](_ => 0);
      waiting := None;
      delivered, taken := [], [];
    }

    /** In goes the whole message or nothing, and nothing goes over one that waits. */
    method Deliver(from: nat, message: seq<Byte>) returns (r: Result<Delivery, DeliverError>)
      requires Valid()
      modifies this, bytes
      ensures Valid() && taken == old(taken)
      ensures match Refusal(old(Contents()), message)
        case Some(why) => r == Err(why) && Contents() == old(Contents()) && delivered == old(delivered)
        case None =>
          && r == Ok(Delivery(from, |message|)) && Contents() == Some(Message(from, message))
          && delivered == old(delivered) + [Message(from, message)]
    {
      if message == [] { return Err(Empty); }
      if |message| > MAILBOX_BYTES { return Err(TooLong(MAILBOX_BYTES)); }
      if waiting.Some? { return Err(Busy); }
      forall i | 0 <= i < |message| { bytes[i] := message[i]; }
      var delivery := Delivery(from, |message|);
      waiting := Some(delivery);
      delivered := delivered + [Message(from, message)];
      assert bytes[..|message|] == message;
      return Ok(delivery);
    }

    /** Out comes the message that went in, whole; on every error it stays. */
    method TakeInto(into: array<Byte>) returns (r: Result<Delivery, TakeError>)
      requires Valid() && into != bytes
      modifies this, into
      ensures Valid() && delivered == old(delivered)
      ensures match old(Contents())
        case None => r == Err(Nothing) && Contents() == None && into[..] == old(into[..]) && taken == old(taken)
        case Some(m) =>
          if into.Length < |m.bytes| then
            r == Err(TooSmall(|m.bytes|)) && Contents() == Some(m) && into[..] == old(into[..]) && taken == old(taken)
          else
            && r == Ok(Delivery(m.from, |m.bytes|)) && Contents() == None && taken == old(taken) + [m]
            && into[..|m.bytes|] == m.bytes && into[|m.bytes|..] == old(into[|m.bytes|..])
    {
      if waiting.None? { return Err(Nothing); }
      var delivery := waiting.value;
      if into.Length < delivery.len { return Err(TooSmall(delivery.len)); }
      ghost var m := Contents().value;
      forall i | 0 <= i < delivery.len { into[i] := bytes[i]; }
      waiting := None;
      taken := taken + [m];
      return Ok(delivery);
    }
  }
}
