/**
 * The transport side of the registry: connection handles, message payloads
 * and the single `send` call through which every message leaves the
 * registry. A delivery is recorded as an entry of a log instead of a write
 * on a socket.
 */
module Transport {
  import opened Wrappers
  import opened Strings

  /** An opaque value: stored connection data or a message body. */
  type Blob = string

  /**
   * A message payload. `data` is the payload's optional `data` field, which
   * the relay fills in from the sender's stored data; `messageKey` is the
   * `message_key` tag the once-per-group broadcast writes into it.
   */
  datatype Message = Message(body: Blob, data: Option<Blob>, messageKey: Option<nat>)

  /**
   * A connection handle supplied by the transport. `id` is the `_id` slot the
   * registry assigns once; `hasWrite` and `hasSend` say whether the handle
   * offers a `write` or a `send` method.
   */
  class Handle {
    var id: Option<string>
    const hasWrite: bool
    const hasSend: bool

    constructor (hasWrite: bool, hasSend: bool)
      ensures id.None? && this.hasWrite == hasWrite && this.hasSend == hasSend
    {
      id := None;
      this.hasWrite := hasWrite;
      this.hasSend := hasSend;
    }
  }

  /** Which of the handle's methods carried a message. */
  datatype Channel = Write | SendCall

  /** One message handed to one handle. */
  datatype Delivery = Delivery(to: Handle, via: Channel, msg: Message)

  /** What `send` does: nothing for a null handle, a delivery, or the exception for a handle without `write` and `send`. */
  datatype SendResult = NotSent | Sent(delivery: Delivery) | NoCapability

  predicate CanDeliver(h: Handle)
  {
    h.hasWrite || h.hasSend
  }

  /** The channel `send` uses: `write` whenever the handle has it. */
  function ChannelOf(h: Handle): (c: Channel)
    requires CanDeliver(h)
    ensures c == Write <==> h.hasWrite
    ensures c == SendCall ==> !h.hasWrite && h.hasSend
  {
    if h.hasWrite then Write else SendCall
  }

  /** `send`: delivers `m` to `h`, reports a null handle, or fails on a handle without a delivery method. */
  function Send(h: Handle?, m: Message): (r: SendResult)
    ensures r.NotSent? <==> h == null
    ensures r.NoCapability? <==> h != null && !CanDeliver(h)
    ensures r.Sent? ==> r.delivery.to == h && r.delivery.msg == m
    ensures r.Sent? ==> (r.delivery.via == Write <==> h.hasWrite)
  {
    if h == null then NotSent
    else if h.hasWrite then Sent(Delivery(h, Write, m))
    else if h.hasSend then Sent(Delivery(h, SendCall, m))
    else NoCapability
  }

  /** PHP's `empty()` on the payload's `data` field: absent, null, "" or "0". */
  predicate EmptyData(d: Option<Blob>): (r: bool)
    ensures r <==> d.None? || !Truthy(d.value)
  {
    d.None? || d.value == "" || d.value == "0"
  }

  /** The relay's payload for a connection with stored data `stored`: the `data` field is filled in only when empty. */
  function Enrich(m: Message, stored: Option<Blob>): (r: Message)
    ensures r.body == m.body && r.messageKey == m.messageKey
    ensures r.data == if EmptyData(m.data) then stored else m.data
  {
    if EmptyData(m.data) then m.(data := stored) else m
  }

  /** The handles a log delivered to. */
  function Recipients(log: seq<Delivery>): set<Handle>
  {
    set i | 0 <= i < |log| :: log[i].to
  }

  /** No handle appears twice in the log. */
  predicate Distinct(log: seq<Delivery>)
  {
    forall i, j :: 0 <= i < j < |log| ==> log[i].to != log[j].to
  }

  /** Every entry of the log is `m`, sent through the recipient's own channel. */
  predicate Carries(log: seq<Delivery>, m: Message)
  {
    forall i :: 0 <= i < |log| ==> CanDeliver(log[i].to) && log[i] == Delivery(log[i].to, ChannelOf(log[i].to), m)
  }

  lemma RecipientsAppend(log: seq<Delivery>, d: Delivery, m: Message)
    requires Distinct(log) && Carries(log, m)
    requires d.to !in Recipients(log)
    requires CanDeliver(d.to) && d == Delivery(d.to, ChannelOf(d.to), m)
    ensures Recipients(log + [d]) == Recipients(log) + {d.to}
    ensures Distinct(log + [d]) && Carries(log + [d], m)
  {
    var log' := log + [d];
    forall i | 0 <= i < |log| ensures log'[i] == log[i] { }
    assert log'[|log|] == d;
    forall x | x in Recipients(log') ensures x in Recipients(log) + {d.to} {
      var i :| 0 <= i < |log'| && log'[i].to == x;
      if i < |log| { assert log[i].to == x; }
    }
    forall x | x in Recipients(log) + {d.to} ensures x in Recipients(log') {
      if x == d.to { assert log'[|log|].to == x; }
      else { var i :| 0 <= i < |log| && log[i].to == x; assert log'[i].to == x; }
    }
    forall i, j | 0 <= i < j < |log'| ensures log'[i].to != log'[j].to {
      if j == |log| { assert log[i].to in Recipients(log); }
    }
  }

  /**
   * A fan-out loop: `send` to every target, in no particular order. The first
   * target without a delivery method raises the exception, which ends the
   * loop (`failed`); the deliveries made before it stay in the log.
   */
  method SendEach(targets: set<Handle>, m: Message) returns (log: seq<Delivery>, failed: bool)
    ensures failed <==> exists h :: h in targets && !CanDeliver(h)
    ensures Recipients(log) <= targets && Distinct(log) && Carries(log, m)
    ensures !failed ==> Recipients(log) == targets && |log| == |targets|
  {
    log, failed := [], false;
    var todo := targets;
    while todo != {}
      invariant todo <= targets
      invariant Recipients(log) == targets - todo && |log| + |todo| == |targets|
      invariant Distinct(log) && Carries(log, m)
      invariant forall h :: h in targets - todo ==> CanDeliver(h)
      decreases todo
    {
      var h :| h in todo;
      var r := Send(h, m);
      if r.NoCapability? {
        failed := true;
        return;
      }
      RecipientsAppend(log, r.delivery, m);
      assert targets - (todo - {h}) == (targets - todo) + {h};
      log := log + [r.delivery];
      todo := todo - {h};
    }
  }
}
