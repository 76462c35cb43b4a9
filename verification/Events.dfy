/** The subscription table: subscribing, renewing, cancelling and numbering notifications. */
module Events {
  import opened Prelude
  import opened Numbers

  const DEFAULT_TIMEOUT_SECONDS := 1_800
  const MAX_TIMEOUT_SECONDS := 86_400
  const U32_MAX := U32_COUNT - 1

  datatype EventService = ContentDirectory | ConnectionManager

  datatype Callback = Callback(address: nat, port: nat, path: string)

  /** Times are in seconds on a clock that never goes back. */
  datatype Subscription = Subscription(service: EventService, callback: Callback, expires: nat, sequence: u32)

  type Table = map<string, Subscription>

  datatype Headers = Headers(
    sid: Option<string>, callback: Option<string>, nt: Option<string>, timeout: Option<string>)

  datatype SubscriptionResponse = SubscriptionResponse(sid: string, timeoutSeconds: nat, isNew: bool)

  datatype SubscriptionError =
    | IncompatibleHeaders
    | InvalidCallback
    | UnsafeCallback
    | InvalidNt
    | InvalidSid

  /** What a notification reports: the update identifier, or the fixed connection variables. */
  datatype Body = SystemUpdateId(updateId: u32) | ConnectionState

  datatype Notification = Notification(callback: Callback, sid: string, sequence: u32, body: Body)

  /** `Callback::parse` and the check that an address shares the interface's private network. */
  datatype Network = Network(parseCallback: string -> Option<Callback>, samePrivateNetwork: nat -> bool)

  function Clamp(n: nat, low: nat, high: nat): (r: nat)
    requires low <= high
    ensures low <= r <= high
  {
    if n < low then low else if n > high then high else n
  }

  /** `parse_timeout`. */
  function ParseTimeout(value: Option<string>): (r: nat)
    ensures 1 <= r <= MAX_TIMEOUT_SECONDS
  {
    var seconds :=
      if value.None? then None
      else
        var rest := StripPrefix(value.value, "Second-");
        if rest.None? then None else ParseUnsigned(rest.value, U64_MAX);
    Clamp(if seconds.Some? then seconds.value else DEFAULT_TIMEOUT_SECONDS, 1, MAX_TIMEOUT_SECONDS)
  }

  /**
   * A number of seconds that can be read is granted, within the limits. It is the default that is
   * granted to a request without a timeout, one in other units, and one whose number cannot be read.
   */
  lemma TimeoutGranted(value: Option<string>, seconds: string)
    ensures value == Some("Second-" + seconds) ==>
      var n := ParseUnsigned(seconds, U64_MAX);
      ParseTimeout(value) == if n.None? then 1_800 else if n.value > 86_400 then 86_400 else Max(1, n.value)
    ensures value.None? || !("Second-" <= value.value) ==> ParseTimeout(value) == 1_800
  {
    assert ("Second-" + seconds)[7..] == seconds;
    hide ParseUnsigned;
  }

  /** A number written in digits can be read exactly when it fits 64 bits. */
  lemma SecondsRead(n: nat)
    ensures ParseUnsigned(Decimal(n), U64_MAX) == if n <= U64_MAX then Some(n) else None
  {
    DecimalValue(n);
    assert IsDigit(Decimal(n)[0]);
    hide Decimal;
  }

  /** `prune_expired`: only subscriptions expiring strictly later survive. */
  function Pruned(table: Table, now: nat): Table {
    map sid | sid in table && table[sid].expires > now :: table[sid]
  }

  function NextSequence(sequence: u32): u32 {
    if sequence == U32_MAX then 1 else sequence + 1
  }

  function BodyFor(service: EventService, updateId: u32): Body {
    if service.ContentDirectory? then SystemUpdateId(updateId) else ConnectionState
  }

  /** `notification`: the message takes the current number and the counter moves on. */
  function NotificationFor(sid: string, s: Subscription, updateId: u32): Notification {
    Notification(s.callback, sid, s.sequence, BodyFor(s.service, updateId))
  }

  function Advanced(s: Subscription): Subscription {
    s.(sequence := NextSequence(s.sequence))
  }

  /** The table after a renewal at `now` that reads the clock again at `later`. */
  function AfterRenewal(table: Table, sid: string, service: EventService, timeoutSeconds: nat, now: nat,
                        later: nat): Table {
    var kept := Pruned(table, now);
    if sid in kept && kept[sid].service == service then kept[sid := kept[sid].(expires := later + timeoutSeconds)]
    else kept
  }

  function AfterInitial(table: Table, sid: string): Table {
    if sid in table then table[sid := Advanced(table[sid])] else table
  }

  /** The table after every content subscription that survives pruning has been numbered. */
  function AfterChange(table: Table, now: nat): Table {
    var kept := Pruned(table, now);
    map sid | sid in kept :: if kept[sid].service.ContentDirectory? then Advanced(kept[sid]) else kept[sid]
  }

  function AfterUnsubscribe(table: Table, sid: string): Table {
    map k | k in table && k != sid :: table[k]
  }

  /** One message for each content subscription that has not expired, and no other message. */
  ghost predicate Announces(messages: seq<Notification>, table: Table, updateId: u32, now: nat) {
    && (forall m :: m in messages <==>
          && m.sid in table && table[m.sid].expires > now && table[m.sid].service.ContentDirectory?
          && m == NotificationFor(m.sid, table[m.sid], updateId))
    && (forall i, j :: 0 <= i < j < |messages| ==> messages[i].sid != messages[j].sid)
  }

  class EventManager {
    var subscriptions: Table
    const network: Network

    constructor (network: Network)
      ensures subscriptions == map[] && this.network == network
    {
      this.network := network;
      subscriptions := map[];
    }

    function ParsedCallback(header: Option<string>): Option<Callback> {
      if header.Some? then network.parseCallback(header.value) else None
    }

    /** The callback parses, belongs to the requester and shares the interface's private network. */
    predicate Reachable(header: Option<string>, requester: nat) {
      var callback := ParsedCallback(header);
      callback.Some? && callback.value.address == requester && network.samePrivateNetwork(requester)
    }

    /** `subscribe`: renews when a SID is given, otherwise registers `freshSid`. */
    method Subscribe(service: EventService, headers: Headers, requester: nat, freshSid: string, now: nat, later: nat)
      returns (r: Result<SubscriptionResponse, SubscriptionError>)
      requires freshSid !in subscriptions
      modifies this
      ensures headers.sid.Some? && (headers.callback.Some? || headers.nt.Some?) ==>
        r == Err(IncompatibleHeaders) && subscriptions == old(subscriptions)
      ensures headers.sid.Some? && headers.callback.None? && headers.nt.None? ==>
        var sid, timeout := headers.sid.value, ParseTimeout(headers.timeout);
        && subscriptions == AfterRenewal(old(subscriptions), sid, service, timeout, now, later)
        && (r.Ok? <==>
             sid in old(subscriptions) && old(subscriptions)[sid].expires > now
             && old(subscriptions)[sid].service == service)
        && r == (if r.Ok? then Ok(SubscriptionResponse(sid, timeout, false)) else Err(InvalidSid))
      ensures headers.sid.None? ==>
        && (r.Ok? <==> headers.nt == Some("upnp:event") && Reachable(headers.callback, requester))
        && (r.Err? ==> r.error == (if headers.nt != Some("upnp:event") then InvalidNt
                                   else if ParsedCallback(headers.callback).None? then InvalidCallback
                                   else UnsafeCallback))
      ensures headers.sid.None? && r.Ok? ==>
        && r.value == SubscriptionResponse(freshSid, ParseTimeout(headers.timeout), true)
        && subscriptions == old(subscriptions)[freshSid :=
             Subscription(service, ParsedCallback(headers.callback).value, later + ParseTimeout(headers.timeout), 0)]
      ensures headers.sid.None? && r.Err? ==> subscriptions == old(subscriptions)
    {
      var timeoutSeconds := ParseTimeout(headers.timeout);
      if headers.sid.Some? {
        if headers.callback.Some? || headers.nt.Some? {
          return Err(IncompatibleHeaders);
        }
        var sid := headers.sid.value;
        subscriptions := Pruned(subscriptions, now);
        if sid !in subscriptions {
          return Err(InvalidSid);
        }
        var subscription := subscriptions[sid];
        if subscription.service != service {
          return Err(InvalidSid);
        }
        subscriptions := subscriptions[sid := subscription.(expires := later + timeoutSeconds)];
        return Ok(SubscriptionResponse(sid, timeoutSeconds, false));
      }
      if headers.nt != Some("upnp:event") {
        return Err(InvalidNt);
      }
      if headers.callback.None? {
        return Err(InvalidCallback);
      }
      var callback := network.parseCallback(headers.callback.value);
      if callback.None? {
        return Err(InvalidCallback);
      }
      if callback.value.address != requester || !network.samePrivateNetwork(callback.value.address) {
        return Err(UnsafeCallback);
      }
      subscriptions := subscriptions[freshSid := Subscription(service, callback.value, later + timeoutSeconds, 0)];
      return Ok(SubscriptionResponse(freshSid, timeoutSeconds, true));
    }

    /** `unsubscribe`: removes a matching subscription, expired or not. */
    method Unsubscribe(service: EventService, headers: Headers) returns (r: Result<(), SubscriptionError>)
      modifies this
      ensures r.Err? ==> r.error == if headers.callback.Some? || headers.nt.Some? then IncompatibleHeaders
        else InvalidSid
      ensures r.Ok? <==>
        && headers.callback.None? && headers.nt.None? && headers.sid.Some?
        && headers.sid.value in old(subscriptions) && old(subscriptions)[headers.sid.value].service == service
      ensures subscriptions == if r.Ok? then AfterUnsubscribe(old(subscriptions), headers.sid.value)
        else old(subscriptions)
    {
      if headers.callback.Some? || headers.nt.Some? {
        return Err(IncompatibleHeaders);
      }
      if headers.sid.None? {
        return Err(InvalidSid);
      }
      var sid := headers.sid.value;
      if sid !in subscriptions || subscriptions[sid].service != service {
        return Err(InvalidSid);
      }
      subscriptions := map k | k in subscriptions && k != sid :: subscriptions[k];
      return Ok(());
    }

    /** `notify_initial` up to the numbered message. */
    method NotifyInitial(sid: string, updateId: u32) returns (message: Option<Notification>)
      modifies this
      ensures subscriptions == AfterInitial(old(subscriptions), sid)
      ensures message == if sid in old(subscriptions)
        then Some(NotificationFor(sid, old(subscriptions)[sid], updateId)) else None
    {
      if sid !in subscriptions {
        return None;
      }
      var subscription := subscriptions[sid];
      message := Some(NotificationFor(sid, subscription, updateId));
      subscriptions := subscriptions[sid := subscription.(sequence :=
        if subscription.sequence == U32_MAX then 1 else subscription.sequence + 1)];
    }

    /** `notify_content_changed` up to the numbered messages, one per content subscription. */
    method NotifyContentChanged(updateId: u32, now: nat) returns (messages: seq<Notification>)
      modifies this
      ensures subscriptions == AfterChange(old(subscriptions), now)
      ensures Announces(messages, old(subscriptions), updateId, now)
    {
      subscriptions := Pruned(subscriptions, now);
      var kept := subscriptions;
      var todo := kept.Keys;
      messages := [];
      while todo != {}
        invariant todo <= kept.Keys && subscriptions.Keys == kept.Keys
        invariant forall sid :: sid in kept ==>
          subscriptions[sid] == (if sid !in todo && kept[sid].service.ContentDirectory? then Advanced(kept[sid])
            else kept[sid])
        invariant forall m :: m in messages <==>
          && m.sid in kept && m.sid !in todo && kept[m.sid].service.ContentDirectory?
          && m == NotificationFor(m.sid, kept[m.sid], updateId)
        invariant forall i, j :: 0 <= i < j < |messages| ==> messages[i].sid != messages[j].sid
      {
        var sid :| sid in todo;
        var subscription := subscriptions[sid];
        if subscription.service.ContentDirectory? {
          messages := messages + [NotificationFor(sid, subscription, updateId)];
          subscriptions := subscriptions[sid := Advanced(subscription)];
        }
        todo := todo - {sid};
      }
    }
  }
}
