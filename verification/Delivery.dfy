/** The messages sent to subscribers: what they carry, and that the protocol's log records them. */
module Delivery {
  import opened Prelude
  import opened Events
  import opened Protocol

  // --- What messages carry -------------------------------------------------------------------

  /** The message carries the identifier, and callback and number of the subscription it is for. */
  predicate Carries(m: Notification, table: Table, updateId: u32) {
    && m.sid in table && m.callback == table[m.sid].callback && m.sequence == table[m.sid].sequence
    && m.body == SystemUpdateId(updateId)
  }

  /**
   * A change is announced to every content subscription that has not expired, and to nobody else,
   * in one message each that carries the new identifier.
   */
  lemma AnnouncementCarries(messages: seq<Notification>, table: Table, updateId: u32, now: nat)
    requires Announces(messages, table, updateId, now)
    ensures forall m :: m in messages ==> Carries(m, table, updateId)
    ensures forall sid :: (exists m :: m in messages && m.sid == sid) <==>
                          sid in table && table[sid].service == ContentDirectory && now < table[sid].expires
    ensures forall i, j :: 0 <= i < j < |messages| ==> messages[i].sid != messages[j].sid
  {
    forall sid | sid in table && table[sid].service == ContentDirectory && now < table[sid].expires
      ensures exists m :: m in messages && m.sid == sid
    {
      var m := NotificationFor(sid, table[sid], updateId);
      assert m in messages;
    }
  }

  /** The messages for one subscriber, as numbers and identifiers. */
  function SentTo(messages: seq<Notification>, sid: string): seq<Message> {
    if messages == [] then []
    else if messages[0].sid == sid && messages[0].body.SystemUpdateId? then
      [Message(messages[0].sequence, messages[0].body.updateId)] + SentTo(messages[1..], sid)
    else SentTo(messages[1..], sid)
  }

  lemma {:induction false} SentOnce(messages: seq<Notification>, i: nat)
    requires i < |messages| && messages[i].body.SystemUpdateId?
    requires forall j, k :: 0 <= j < k < |messages| ==> messages[j].sid != messages[k].sid
    ensures SentTo(messages, messages[i].sid) == [Message(messages[i].sequence, messages[i].body.updateId)]
  {
    var rest := messages[1..];
    if i == 0 {
      NothingSent(rest, messages[0].sid);
    } else {
      assert messages[0].sid != messages[i].sid;
      SentOnce(rest, i - 1);
    }
  }

  lemma {:induction false} NothingSent(messages: seq<Notification>, sid: string)
    requires forall m :: m in messages ==> m.sid != sid
    ensures SentTo(messages, sid) == []
  {
    if messages != [] {
      NothingSent(messages[1..], sid);
    }
  }

  // --- The log -------------------------------------------------------------------------------

  lemma AnnouncementIsLogged(s: State, messages: seq<Notification>, sid: string)
    requires Tracked(s) && s.outstanding.Some? && sid in s.log
    requires Announces(messages, s.table, s.outstanding.value, s.now)
    ensures var t := Apply(s, Announce); sid in t.log && t.log[sid] == s.log[sid] + SentTo(messages, sid)
  {
    hide Announces;
    AnnouncementCarries(messages, s.table, s.outstanding.value, s.now);
    if i :| 0 <= i < |messages| && messages[i].sid == sid {
      assert messages[i] in messages;
      SentOnce(messages, i);
    } else {
      assert forall m :: m in messages ==> exists i :: 0 <= i < |messages| && messages[i] == m;
      NothingSent(messages, sid);
      assert !Hears(s, sid);
    }
  }

  /**
   * Announcing a published catalog: the table changes as the protocol says, and the log grows by
   * exactly what was sent.
   */
  method Announcing(events: EventManager, ghost s: State, updateId: u32, now: nat)
    returns (messages: seq<Notification>)
    requires Tracked(s) && s.outstanding == Some(updateId) && s.now == now && events.subscriptions == s.table
    modifies events
    ensures events.subscriptions == Apply(s, Announce).table
    ensures forall m :: m in messages ==> Carries(m, s.table, updateId)
    ensures forall sid :: sid in s.log ==>
      sid in Apply(s, Announce).log && Apply(s, Announce).log[sid] == s.log[sid] + SentTo(messages, sid)
  {
    messages := events.NotifyContentChanged(updateId, now);
    AnnouncementCarries(messages, s.table, updateId, now);
    hide Announces, Apply;
    forall sid | sid in s.log
      ensures sid in Apply(s, Announce).log && Apply(s, Announce).log[sid] == s.log[sid] + SentTo(messages, sid)
    {
      AnnouncementIsLogged(s, messages, sid);
    }
    TableAnnounced(s);
  }

  lemma TableAnnounced(s: State)
    requires Tracked(s) && s.outstanding.Some?
    ensures Apply(s, Announce).table == AfterChange(s.table, s.now)
  {
  }

  /**
   * Numbering an initial message: it is sent to the subscription if that is still there, with its
   * number and callback, and carries the identifier read exactly if it is for content; the table
   * changes as the protocol says, and the log grows by its number and the identifier read.
   */
  method Numbering(events: EventManager, ghost s: State, sid: string, read: u32)
    returns (message: Option<Notification>)
    requires Tracked(s) && Enabled(s, NumberInitial(sid)) && s.tasks[sid].read == read
    requires events.subscriptions == s.table
    modifies events
    ensures events.subscriptions == Apply(s, NumberInitial(sid)).table
    ensures message.Some? <==> sid in s.table
    ensures message.Some? ==>
      && message.value.sid == sid && message.value.callback == s.table[sid].callback
      && message.value.sequence == s.table[sid].sequence
      && (message.value.body == SystemUpdateId(read) <==> s.table[sid].service == ContentDirectory)
    ensures sid in s.log && sid in Apply(s, NumberInitial(sid)).log
    ensures Apply(s, NumberInitial(sid)).log[sid]
         == s.log[sid] + if message.Some? then [Message(message.value.sequence, read)] else []
  {
    message := events.NotifyInitial(sid, read);
  }
}
