/**
 * Every interleaving of subscribers, the scanner, renewals, cancellations and time. Each step is
 * one section of the code that runs without interruption.
 */
module Protocol {
  import opened Prelude
  import opened Events

  /**
   * How far the task that serves one new subscription has come: it has not read the catalog; it
   * will number the initial message with the identifier it read; or it has done so. `stale` says
   * that a catalog was published between the read and the initial message, `notified` that a
   * change was numbered for the subscription after the initial message.
   */
  datatype Task = Unread | Waiting(read: u32, stale: bool) | Done(read: u32, stale: bool, notified: bool)

  datatype Message = Message(sequence: u32, updateId: u32)

  /**
   * `current` is the identifier of the published catalog, `outstanding` the one the scanner has
   * published but not yet announced. `tasks` and `log` remember every SID ever issued.
   */
  datatype State = State(
    now: nat, table: Table, current: u32, outstanding: Option<u32>,
    tasks: map<string, Task>, log: map<string, seq<Message>>)

  datatype Event =
    | Wait(seconds: nat)
    | Insert(sid: string, service: EventService, callback: Callback, timeoutSeconds: nat)
    | ReadCatalog(sid: string)
    | NumberInitial(sid: string)
    | Publish(updateId: u32)
    | Announce
    | Renew(sid: string, service: EventService, timeoutSeconds: nat)
    | Cancel(sid: string)

  function Initial(now: nat, current: u32): State {
    State(now, map[], current, None, map[], map[])
  }

  /** A new SID is fresh, tasks take their three steps in order, the scanner announces what it published. */
  predicate Enabled(s: State, e: Event) {
    match e
    case Wait(_) => true
    case Insert(sid, _, _, _) => sid !in s.tasks && sid !in s.table
    case ReadCatalog(sid) => sid in s.tasks && s.tasks[sid].Unread?
    case NumberInitial(sid) => sid in s.tasks && s.tasks[sid].Waiting?
    case Publish(_) => s.outstanding.None?
    case Announce => s.outstanding.Some?
    case Renew(_, _, _) => true
    case Cancel(_) => true
  }

  /** The message numbered for `sid`, as the log remembers it. */
  function Logged(s: State, sid: string, updateId: u32): seq<Message>
    requires sid in s.table && sid in s.log
  {
    s.log[sid] + [Message(s.table[sid].sequence, updateId)]
  }

  /** Whether an announcement at `s.now` is numbered for `sid`. */
  predicate Hears(s: State, sid: string) {
    sid in s.table && s.table[sid].expires > s.now && s.table[sid].service.ContentDirectory?
  }

  function Marked(t: Task): Task {
    if t.Done? then Done(t.read, t.stale, true) else t
  }

  function Overtaken(t: Task): Task {
    if t.Waiting? then Waiting(t.read, true) else t
  }

  function Apply(s: State, e: Event): State
    requires Tracked(s) && Enabled(s, e)
  {
    match e
    case Wait(seconds) => s.(now := s.now + seconds)
    case Insert(sid, service, callback, timeoutSeconds) =>
      s.(table := s.table[sid := Subscription(service, callback, s.now + timeoutSeconds, 0)],
         tasks := s.tasks[sid := Unread],
         log := s.log[sid := []])
    case ReadCatalog(sid) => s.(tasks := s.tasks[sid := Waiting(s.current, false)])
    case NumberInitial(sid) =>
      var task := s.tasks[sid];
      s.(table := AfterInitial(s.table, sid),
         tasks := s.tasks[sid := Done(task.read, task.stale, false)],
         log := if sid in s.table then s.log[sid := Logged(s, sid, task.read)] else s.log)
    case Publish(updateId) =>
      s.(current := updateId, outstanding := Some(updateId),
         tasks := map sid | sid in s.tasks :: Overtaken(s.tasks[sid]))
    case Announce =>
      s.(table := AfterChange(s.table, s.now), outstanding := None,
         tasks := map sid | sid in s.tasks :: if Hears(s, sid) then Marked(s.tasks[sid]) else s.tasks[sid],
         log := map sid | sid in s.log :: if Hears(s, sid) then Logged(s, sid, s.outstanding.value) else s.log[sid])
    case Renew(sid, service, timeoutSeconds) =>
      s.(table := AfterRenewal(s.table, sid, service, timeoutSeconds, s.now, s.now))
    case Cancel(sid) => s.(table := AfterUnsubscribe(s.table, sid))
  }

  /** Every subscription has a task and a log, and the two know the same SIDs. */
  predicate Tracked(s: State) {
    s.tasks.Keys == s.log.Keys && s.table.Keys <= s.tasks.Keys
  }

  // --- Invariants ----------------------------------------------------------------------------

  /** Number of the `k`-th message of a subscription: zero first, then 1 to 2^32-1 in a cycle. */
  function SequenceAt(k: nat): u32 {
    if k == 0 then 0 else (k - 1) % U32_MAX + 1
  }

  ghost predicate Numbered(s: State)
    requires Tracked(s)
  {
    && (forall sid, k :: sid in s.log && 0 <= k < |s.log[sid]| ==> s.log[sid][k].sequence == SequenceAt(k))
    && (forall sid :: sid in s.table ==> s.table[sid].sequence == SequenceAt(|s.log[sid]|))
  }

  ghost predicate Told(messages: seq<Message>, updateId: u32) {
    exists k :: 0 <= k < |messages| && messages[k].updateId == updateId
  }

  /**
   * No update is lost on a content subscription: the published identifier has been numbered for
   * it, or its announcement or an initial message carrying it is still to come, or the subscriber
   * has yet to read the catalog.
   */
  ghost predicate NoLostUpdate(s: State)
    requires Tracked(s)
  {
    && (s.outstanding.Some? ==> s.outstanding.value == s.current)
    && forall sid :: sid in s.table && s.table[sid].service.ContentDirectory? ==>
         || Told(s.log[sid], s.current)
         || s.outstanding == Some(s.current)
         || (s.tasks[sid].Waiting? && s.tasks[sid].read == s.current)
         || s.tasks[sid].Unread?
  }

  function Last(messages: seq<Message>): u32
    requires messages != []
  {
    messages[|messages| - 1].updateId
  }

  /** What the progress of a subscriber's task says about the last message numbered for it. */
  ghost predicate LastMessageKnown(s: State)
    requires Tracked(s)
  {
    forall sid :: sid in s.table && s.table[sid].service.ContentDirectory? ==> LastKnownFor(s, sid)
  }

  ghost predicate LastKnownFor(s: State, sid: string)
    requires Tracked(s) && sid in s.table
  {
    match s.tasks[sid]
    case Unread => true
    case Waiting(read, stale) => !stale ==> read == s.current
    case Done(read, stale, notified) =>
      && s.log[sid] != []
      && (!notified ==> Last(s.log[sid]) == read)
      && (notified ==> Last(s.log[sid]) == s.current || s.outstanding.Some?)
      && (!notified && !stale ==> read == s.current || s.outstanding.Some?)
  }

  ghost predicate Inv(s: State) {
    Tracked(s) && Numbered(s) && NoLostUpdate(s) && LastMessageKnown(s)
  }

  lemma SequenceAdvances(k: nat)
    ensures NextSequence(SequenceAt(k)) == SequenceAt(k + 1)
  {
    if k > 0 {
      var n := k - 1;
      var q, r := n / U32_MAX, n % U32_MAX;
      assert n == q * U32_MAX + r;
      if r + 1 < U32_MAX {
        assert n + 1 == q * U32_MAX + (r + 1);
        DivModUnique(n + 1, q, r + 1);
      } else {
        assert n + 1 == (q + 1) * U32_MAX + 0;
        DivModUnique(n + 1, q + 1, 0);
      }
    }
  }

  lemma DivModUnique(n: int, q: int, r: int)
    requires n == q * U32_MAX + r && 0 <= r < U32_MAX
    ensures n % U32_MAX == r
  {
  }

  /** After the first message the number zero never comes back. */
  lemma ZeroNeverRecurs(k: nat)
    ensures SequenceAt(k) == 0 <==> k == 0
  {
  }

  lemma TrackedStep(s: State, e: Event)
    requires Tracked(s) && Enabled(s, e)
    ensures Tracked(Apply(s, e))
  {
  }

  lemma ToldAppend(messages: seq<Message>, m: Message, updateId: u32)
    ensures Told(messages + [m], updateId) <==> Told(messages, updateId) || m.updateId == updateId
  {
    var longer := messages + [m];
    if Told(messages, updateId) {
      var k :| 0 <= k < |messages| && messages[k].updateId == updateId;
      assert longer[k].updateId == updateId;
    }
    assert longer[|messages|] == m;
  }

  /** A step leaves a log and its counter alone, or numbers one message with that counter. */
  lemma LogStep(s: State, e: Event, sid: string)
    requires Tracked(s) && Enabled(s, e) && sid in s.log
    ensures var t := Apply(s, e);
            && sid in t.log
            && (|| (t.log[sid] == s.log[sid]
                    && (sid in t.table ==> sid in s.table && t.table[sid].sequence == s.table[sid].sequence))
                || (sid in s.table && sid in t.table && |t.log[sid]| == |s.log[sid]| + 1
                    && t.log[sid][..|s.log[sid]|] == s.log[sid]
                    && t.log[sid][|s.log[sid]|].sequence == s.table[sid].sequence
                    && t.table[sid].sequence == NextSequence(s.table[sid].sequence)))
  {
    hide NextSequence;
  }

  lemma NumberedStep(s: State, e: Event)
    requires Inv(s) && Enabled(s, e)
    ensures Tracked(Apply(s, e)) && Numbered(Apply(s, e))
  {
    TrackedStep(s, e);
    ZeroFirst();
    var t := Apply(s, e);
    hide Apply, SequenceAt, NextSequence, NoLostUpdate, LastMessageKnown;
    forall sid | sid in t.log
      ensures forall k :: 0 <= k < |t.log[sid]| ==> t.log[sid][k].sequence == SequenceAt(k)
      ensures sid in t.table ==> t.table[sid].sequence == SequenceAt(|t.log[sid]|)
    {
      if sid in s.log {
        LogStep(s, e, sid);
        LogStaysNumbered(s.log[sid], t.log[sid]);
        SequenceAdvances(|s.log[sid]|);
      } else {
        FreshLog(s, e, sid);
      }
    }
  }

  lemma FreshLog(s: State, e: Event, sid: string)
    requires Tracked(s) && Enabled(s, e) && sid !in s.log
    ensures var t := Apply(s, e); sid in t.log ==> t.log[sid] == [] && (sid in t.table ==> t.table[sid].sequence == 0)
  {
  }

  lemma LogStaysNumbered(before: seq<Message>, after: seq<Message>)
    requires forall k :: 0 <= k < |before| ==> before[k].sequence == SequenceAt(k)
    requires after == before || (|after| == |before| + 1 && after[..|before|] == before
      && after[|before|].sequence == SequenceAt(|before|))
    ensures forall k :: 0 <= k < |after| ==> after[k].sequence == SequenceAt(k)
  {
    hide SequenceAt;
    forall k | 0 <= k < |after|
      ensures after[k].sequence == SequenceAt(k)
    {
      assert k < |before| ==> after[..|before|][k] == before[k];
    }
  }

  lemma ZeroFirst()
    ensures SequenceAt(0) == 0
  {
  }

  lemma NoLostUpdateStep(s: State, e: Event)
    requires Inv(s) && Enabled(s, e)
    ensures Tracked(Apply(s, e)) && NoLostUpdate(Apply(s, e))
  {
    var t := Apply(s, e);
    TrackedStep(s, e);
    hide Numbered, SequenceAt, NextSequence, LastMessageKnown, Told;
    forall sid | sid in t.table && t.table[sid].service.ContentDirectory?
      ensures
        || Told(t.log[sid], t.current)
        || t.outstanding == Some(t.current)
        || (t.tasks[sid].Waiting? && t.tasks[sid].read == t.current)
        || t.tasks[sid].Unread?
    {
      if sid in s.table {
        ToldAppend(s.log[sid], Message(s.table[sid].sequence, s.current), s.current);
        if e.NumberInitial? && e.sid == sid {
          ToldAppend(s.log[sid], Message(s.table[sid].sequence, s.tasks[sid].read), s.current);
        }
      }
    }
  }

  lemma LastMessageStep(s: State, e: Event)
    requires Inv(s) && Enabled(s, e)
    ensures Tracked(Apply(s, e)) && LastMessageKnown(Apply(s, e))
  {
    TrackedStep(s, e);
    hide Numbered, SequenceAt, NextSequence, Told;
    forall sid | sid in Apply(s, e).table && Apply(s, e).table[sid].service.ContentDirectory?
      ensures LastKnownFor(Apply(s, e), sid)
    {
      LastMessageStepFor(s, e, sid);
    }
  }

  lemma LastMessageStepFor(s: State, e: Event, sid: string)
    requires Tracked(s) && LastMessageKnown(s) && Enabled(s, e) && Tracked(Apply(s, e))
    requires s.outstanding.Some? ==> s.outstanding.value == s.current
    requires sid in Apply(s, e).table && Apply(s, e).table[sid].service.ContentDirectory?
    ensures LastKnownFor(Apply(s, e), sid)
  {
    hide NextSequence;
    if sid in s.table {
      assert LastKnownFor(s, sid);
    }
  }

  lemma InvStep(s: State, e: Event)
    requires Inv(s) && Enabled(s, e)
    ensures Inv(Apply(s, e))
  {
    NumberedStep(s, e);
    NoLostUpdateStep(s, e);
    LastMessageStep(s, e);
  }

  // --- Runs ----------------------------------------------------------------------------------

  /** Every event of the run is enabled when its turn comes. */
  ghost predicate Legal(s: State, run: seq<Event>)
    requires Tracked(s)
    decreases |run|
  {
    run == [] || (Enabled(s, run[0]) && Tracked(Apply(s, run[0])) && Legal(Apply(s, run[0]), run[1..]))
  }

  ghost function After(s: State, run: seq<Event>): State
    requires Tracked(s) && Legal(s, run)
    decreases |run|
  {
    if run == [] then s else After(Apply(s, run[0]), run[1..])
  }

  lemma {:induction false} InvAlways(s: State, run: seq<Event>)
    requires Inv(s) && Legal(s, run)
    ensures Inv(After(s, run))
    decreases |run|
  {
    if run != [] {
      InvStep(s, run[0]);
      InvAlways(Apply(s, run[0]), run[1..]);
    }
  }

  /** In every interleaving, from an empty table, no update is lost. */
  lemma EveryRunKeepsUpdates(now: nat, current: u32, run: seq<Event>)
    requires Legal(Initial(now, current), run)
    ensures var s := After(Initial(now, current), run); Tracked(s) && NoLostUpdate(s)
  {
    InvAlways(Initial(now, current), run);
  }

  /** In every interleaving the messages of a subscription are numbered 0, 1, 2, ..., wrapping to 1. */
  lemma EveryRunNumbersInOrder(now: nat, current: u32, run: seq<Event>, sid: string)
    requires Legal(Initial(now, current), run)
    requires sid in After(Initial(now, current), run).log
    ensures var messages := After(Initial(now, current), run).log[sid];
            forall k :: 0 <= k < |messages| ==>
              messages[k].sequence == SequenceAt(k) && (messages[k].sequence == 0 <==> k == 0)
  {
    InvAlways(Initial(now, current), run);
    hide SequenceAt;
    var messages := After(Initial(now, current), run).log[sid];
    forall k | 0 <= k < |messages|
      ensures messages[k].sequence == SequenceAt(k) && (messages[k].sequence == 0 <==> k == 0)
    {
      ZeroNeverRecurs(k);
    }
  }

  /** The scanner has announced everything and the subscriber's own message has been numbered. */
  predicate Quiet(s: State, sid: string) {
    s.outstanding.None? && sid in s.table && s.table[sid].service.ContentDirectory? && sid in s.tasks
      && s.tasks[sid].Done?
  }

  /**
   * At quiescence the last message numbered for a content subscription carries the published
   * identifier exactly when a change was numbered after the initial message or the identifier the
   * subscriber read is the published one.
   */
  lemma LastMessageIsCurrent(now: nat, current: u32, run: seq<Event>, sid: string)
    requires Legal(Initial(now, current), run)
    requires Quiet(After(Initial(now, current), run), sid)
    ensures var s := After(Initial(now, current), run);
            && Tracked(s) && s.log[sid] != []
            && (Last(s.log[sid]) == s.current <==> s.tasks[sid].notified || s.tasks[sid].read == s.current)
            && (!s.tasks[sid].stale ==> Last(s.log[sid]) == s.current)
  {
    InvAlways(Initial(now, current), run);
  }

  // --- Expiry --------------------------------------------------------------------------------

  /** A SID whose subscription is gone or has run out. */
  predicate Dead(s: State, sid: string) {
    sid in s.tasks && (sid in s.table ==> s.table[sid].expires <= s.now)
  }

  /** A subscription that has expired or been cancelled is never revived, whatever happens later. */
  lemma {:induction false} DeadStaysDead(s: State, run: seq<Event>, sid: string)
    requires Tracked(s) && Legal(s, run) && Dead(s, sid)
    ensures Dead(After(s, run), sid)
    decreases |run|
  {
    if run != [] {
      DeadStaysDead(Apply(s, run[0]), run[1..], sid);
    }
  }

  /** While it lives, a subscription keeps its service and callback, and its counter only follows its log. */
  lemma {:induction false} IdentityIsKept(s: State, run: seq<Event>, sid: string)
    requires Tracked(s) && Legal(s, run)
    requires sid in s.table && sid in After(s, run).table
    ensures var t := After(s, run);
            t.table[sid].service == s.table[sid].service && t.table[sid].callback == s.table[sid].callback
    ensures Tracked(After(s, run)) && s.log[sid] <= After(s, run).log[sid]
    decreases |run|
  {
    if run != [] {
      var t := Apply(s, run[0]);
      if sid !in t.table {
        GoneStaysGone(t, run[1..], sid);
      } else {
        IdentityIsKept(t, run[1..], sid);
      }
    }
  }

  lemma {:induction false} GoneStaysGone(s: State, run: seq<Event>, sid: string)
    requires Tracked(s) && Legal(s, run) && sid in s.tasks && sid !in s.table
    ensures sid !in After(s, run).table
    decreases |run|
  {
    if run != [] {
      GoneStaysGone(Apply(s, run[0]), run[1..], sid);
    }
  }

  // --- The number of the initial message -----------------------------------------------------

  /** One more event at the end of a run. */
  lemma {:induction false} OneMoreEvent(s: State, run: seq<Event>, n: nat)
    requires Tracked(s) && Legal(s, run) && n < |run|
    ensures Legal(s, run[..n]) && Legal(s, run[..n + 1])
    ensures var t := After(s, run[..n]);
            && Tracked(t) && Enabled(t, run[n]) && Tracked(Apply(t, run[n]))
            && After(s, run[..n + 1]) == Apply(t, run[n])
    decreases n
  {
    hide Apply, Enabled, Tracked;
    var t := Apply(s, run[0]);
    assert run[..n + 1][0] == run[0] && run[..n + 1][1..] == run[1..][..n];
    if n == 0 {
      assert run[..1][1..] == [] && run[..0] == [];
    } else {
      OneMoreEvent(t, run[1..], n - 1);
      assert run[1..][n - 1] == run[n] && run[..n][1..] == run[1..][..n - 1] && run[..n][0] == run[0];
    }
  }

  lemma PrefixLegal(s: State, run: seq<Event>, n: nat)
    requires Tracked(s) && Legal(s, run) && n <= |run|
    ensures Legal(s, run[..n]) && Tracked(After(s, run[..n]))
  {
    hide Apply, Enabled, Tracked;
    if n == 0 {
      assert run[..0] == [];
    } else {
      OneMoreEvent(s, run, n - 1);
    }
  }

  /** The state after the first `n` events of a run. */
  ghost function At(s: State, run: seq<Event>, n: nat): (t: State)
    requires Tracked(s) && Legal(s, run) && n <= |run|
    ensures Tracked(t)
  {
    PrefixLegal(s, run, n);
    After(s, run[..n])
  }

  lemma AtStep(s: State, run: seq<Event>, n: nat)
    requires Tracked(s) && Legal(s, run) && n < |run|
    ensures Enabled(At(s, run, n), run[n]) && At(s, run, n + 1) == Apply(At(s, run, n), run[n])
  {
    hide Apply, Enabled, Tracked;
    OneMoreEvent(s, run, n);
  }

  /** Among the first `n` events a change was announced to `sid`. */
  ghost predicate Heard(s: State, run: seq<Event>, n: nat, sid: string)
    requires Tracked(s) && Legal(s, run) && n <= |run|
  {
    exists k :: 0 <= k < n && HeardAt(s, run, k, sid)
  }

  ghost predicate HeardAt(s: State, run: seq<Event>, k: nat, sid: string)
    requires Tracked(s) && Legal(s, run) && k < |run|
  {
    run[k].Announce? && Hears(At(s, run, k), sid)
  }

  lemma HeardStep(s: State, run: seq<Event>, n: nat, sid: string)
    requires Tracked(s) && Legal(s, run) && n < |run|
    ensures Heard(s, run, n + 1, sid) <==> Heard(s, run, n, sid) || HeardAt(s, run, n, sid)
  {
    hide HeardAt;
  }

  /** Until its initial message is numbered, a subscription has messages exactly if it heard a change. */
  ghost predicate NumberedOnlyIfHeard(t: State, sid: string, heard: bool)
    requires Tracked(t)
  {
    && (sid !in t.tasks ==> !heard)
    && (sid in t.tasks && !t.tasks[sid].Done? ==> (t.log[sid] != [] <==> heard))
    && (sid in t.table && t.table[sid].service.ConnectionManager? ==> !heard)
  }

  lemma HeardOneMore(t: State, e: Event, sid: string, heard: bool)
    requires Tracked(t) && Enabled(t, e) && NumberedOnlyIfHeard(t, sid, heard)
    ensures Tracked(Apply(t, e))
    ensures NumberedOnlyIfHeard(Apply(t, e), sid, heard || (e.Announce? && Hears(t, sid)))
  {
    TrackedStep(t, e);
    hide NextSequence;
  }

  lemma {:induction false} NumberedOnlyIfHeardAlways(s: State, run: seq<Event>, n: nat, sid: string)
    requires s == Initial(s.now, s.current) && Legal(s, run) && n <= |run|
    ensures NumberedOnlyIfHeard(At(s, run, n), sid, Heard(s, run, n, sid))
    decreases n
  {
    if n == 0 {
      assert run[..0] == [];
    } else {
      NumberedOnlyIfHeardAlways(s, run, n - 1, sid);
      AtStep(s, run, n - 1);
      HeardStep(s, run, n - 1, sid);
      hide Apply, Enabled, Legal, NumberedOnlyIfHeard, Heard;
      HeardOneMore(At(s, run, n - 1), run[n - 1], sid, Heard(s, run, n - 1, sid));
    }
  }

  /**
   * In every run the initial message, numbered for a subscription that still exists, is number
   * zero exactly when no change was announced to that subscription before. It is always number
   * zero for a connection manager subscription.
   */
  lemma InitialMessageIsZeroIff(now: nat, current: u32, run: seq<Event>, j: nat, sid: string)
    requires var s := Initial(now, current);
             && Legal(s, run) && j < |run| && run[j] == NumberInitial(sid)
             && sid in At(s, run, j).table
    ensures var s := Initial(now, current);
            var (before, after) := (At(s, run, j), At(s, run, j + 1));
            && sid in before.log && sid in after.log && before.tasks[sid].Waiting?
            && |after.log[sid]| == |before.log[sid]| + 1 && after.log[sid][..|before.log[sid]|] == before.log[sid]
            && var m := after.log[sid][|before.log[sid]|];
            && m.updateId == before.tasks[sid].read
            && (m.sequence == 0 <==> !Heard(s, run, j, sid))
            && (before.table[sid].service.ConnectionManager? ==> m.sequence == 0)
  {
    var s := Initial(now, current);
    var before := At(s, run, j);
    NumberedOnlyIfHeardAlways(s, run, j, sid);
    AtStep(s, run, j);
    PrefixLegal(s, run, j);
    InvAlways(s, run[..j]);
    ZeroNeverRecurs(|before.log[sid]|);
    hide Legal, Heard, SequenceAt, NoLostUpdate, LastMessageKnown;
  }

  /**
   * A subscriber that hears of a change, reads the catalog after it, and still gets its initial
   * message as number one.
   */
  function ReadingLate(sid: string, news: u32): seq<Event> {
    [Publish(news)] + ([Insert(sid, ContentDirectory, VIEWER, 60)]
      + ([Announce] + ([ReadCatalog(sid)] + [NumberInitial(sid)])))
  }

  /** Being up to date does not make the initial message number zero. */
  lemma CurrentButNotZero(now: nat, first: u32, news: u32, sid: string)
    ensures Legal(Initial(now, first), ReadingLate(sid, news))
    ensures var s := After(Initial(now, first), ReadingLate(sid, news));
            Quiet(s, sid) && s.tasks[sid] == Done(news, false, false)
            && sid in s.log && s.log[sid] == [Message(0, news), Message(1, news)]
  {
    var start := Initial(now, first);
    var published := Apply(start, Publish(news));
    var inserted := Apply(published, Insert(sid, ContentDirectory, VIEWER, 60));
    assert inserted.tasks[sid] == Unread && inserted.log[sid] == [] && inserted.table[sid].expires > now;
    var announced := Apply(inserted, Announce);
    assert announced.table[sid].sequence == 1 && announced.log[sid] == [Message(0, news)];
    assert announced.tasks[sid] == Unread;
    ReadsAndNumbers(announced, sid, news);
    hide Apply;
    LegalCons(inserted, Announce, [ReadCatalog(sid)] + [NumberInitial(sid)]);
    LegalCons(published, Insert(sid, ContentDirectory, VIEWER, 60), [Announce]
      + ([ReadCatalog(sid)] + [NumberInitial(sid)]));
    LegalCons(start, Publish(news),
              [Insert(sid, ContentDirectory, VIEWER, 60)] + ([Announce] + ([ReadCatalog(sid)] + [NumberInitial(sid)])));
  }

  lemma ReadsAndNumbers(s: State, sid: string, news: u32)
    requires Tracked(s) && s.outstanding.None? && s.current == news
    requires sid in s.table && s.table[sid].service.ContentDirectory? && s.table[sid].sequence == 1
    requires s.tasks[sid].Unread? && s.log[sid] == [Message(0, news)]
    ensures var run := [ReadCatalog(sid)] + [NumberInitial(sid)];
            && Legal(s, run)
            && var t := After(s, run);
            && Quiet(t, sid) && t.tasks[sid] == Done(news, false, false)
            && sid in t.log && t.log[sid] == [Message(0, news), Message(1, news)]
  {
    var waiting := Apply(s, ReadCatalog(sid));
    assert waiting.log[sid] == [Message(0, news)] && waiting.table[sid].sequence == 1;
    var done := Apply(waiting, NumberInitial(sid));
    assert done.log[sid] == [Message(0, news), Message(1, news)];
    hide Apply;
    LegalOne(waiting, NumberInitial(sid));
    LegalCons(s, ReadCatalog(sid), [NumberInitial(sid)]);
  }

  // --- What does not hold --------------------------------------------------------------------

  const VIEWER := Callback(1, 2, "/events")

  /**
   * A subscriber reads the catalog, is overtaken by the announcement of `news`, and only then gets
   * its initial message.
   */
  function Overtaking(sid: string, news: u32): seq<Event> {
    [Insert(sid, ContentDirectory, VIEWER, 60)]
      + ([ReadCatalog(sid)] + ([Publish(news)] + ([Announce] + [NumberInitial(sid)])))
  }

  /**
   * Whatever was published before and after, the initial message need not be the one numbered
   * zero, and the last message may be out of date once everything is quiet.
   */
  lemma InitialMessageMayComeLate(now: nat, first: u32, news: u32, sid: string)
    ensures Legal(Initial(now, first), Overtaking(sid, news))
    ensures var s := After(Initial(now, first), Overtaking(sid, news));
            Quiet(s, sid) && sid in s.log && s.log[sid] == [Message(0, news), Message(1, first)] && s.current == news
  {
    var start := Initial(now, first);
    var inserted := Apply(start, Insert(sid, ContentDirectory, VIEWER, 60));
    assert inserted.tasks[sid] == Unread && inserted.log[sid] == [] && inserted.table[sid].expires > now;
    var waiting := Apply(inserted, ReadCatalog(sid));
    var published := Apply(waiting, Publish(news));
    assert published.tasks[sid] == Waiting(first, true) && published.log[sid] == [];
    OvertakenBy(published, sid, first, news);
    hide Apply;
    LegalCons(waiting, Publish(news), [Announce] + [NumberInitial(sid)]);
    LegalCons(inserted, ReadCatalog(sid), [Publish(news)] + ([Announce] + [NumberInitial(sid)]));
    LegalCons(start, Insert(sid, ContentDirectory, VIEWER, 60),
              [ReadCatalog(sid)] + ([Publish(news)] + ([Announce] + [NumberInitial(sid)])));
  }

  lemma OvertakenBy(s: State, sid: string, first: u32, news: u32)
    requires Tracked(s) && s.outstanding == Some(news) && s.current == news && Hears(s, sid)
    requires s.tasks[sid] == Waiting(first, true) && s.log[sid] == [] && s.table[sid].sequence == 0
    ensures var run := [Announce] + [NumberInitial(sid)];
            && Legal(s, run)
            && var t := After(s, run);
            Quiet(t, sid) && sid in t.log && t.log[sid] == [Message(0, news), Message(1, first)] && t.current == news
  {
    var announced := Apply(s, Announce);
    assert announced.table[sid].sequence == 1 && announced.log[sid] == [Message(0, news)];
    var done := Apply(announced, NumberInitial(sid));
    assert done.log[sid] == [Message(0, news), Message(1, first)];
    hide Apply;
    LegalOne(announced, NumberInitial(sid));
    LegalCons(s, Announce, [NumberInitial(sid)]);
  }

  lemma LegalOne(s: State, e: Event)
    requires Tracked(s) && Enabled(s, e)
    ensures Legal(s, [e]) && After(s, [e]) == Apply(s, e)
  {
    TrackedStep(s, e);
    assert [e][1..] == [];
  }

  lemma LegalCons(s: State, e: Event, rest: seq<Event>)
    requires Tracked(s) && Enabled(s, e) && Tracked(Apply(s, e)) && Legal(Apply(s, e), rest)
    ensures Legal(s, [e] + rest) && After(s, [e] + rest) == After(Apply(s, e), rest)
  {
    assert ([e] + rest)[1..] == rest;
  }
}
