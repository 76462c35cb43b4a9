/** How long a subscription lives. */
module Leases {
  import opened Prelude
  import opened Events
  import opened Protocol

  /** The seconds that pass in a run. */
  function Elapsed(run: seq<Event>): nat {
    if run == [] then 0 else (if run[0].Wait? then run[0].seconds else 0) + Elapsed(run[1..])
  }

  /** The subscription is neither renewed nor cancelled. */
  ghost predicate Undisturbed(run: seq<Event>, sid: string) {
    forall e :: e in run ==> e != Cancel(sid) && !(e.Renew? && e.sid == sid)
  }

  /** The table has the subscription, and it has not expired. */
  predicate Alive(s: State, sid: string) {
    sid in s.table && s.now < s.table[sid].expires
  }

  lemma {:induction false} LeaseRunsOut(s: State, run: seq<Event>, sid: string)
    requires Tracked(s) && Legal(s, run) && sid in s.table && Undisturbed(run, sid)
    ensures After(s, run).now == s.now + Elapsed(run)
    ensures Alive(After(s, run), sid) <==> s.now + Elapsed(run) < s.table[sid].expires
    decreases |run|
  {
    if run != [] {
      var t := Apply(s, run[0]);
      LeaseStep(s, run[0], sid);
      assert run[0] in run && forall e :: e in run[1..] ==> e in run;
      hide Apply, Enabled;
      if sid in t.table {
        LeaseRunsOut(t, run[1..], sid);
      } else {
        PrunedForGood(t, run[1..], sid);
      }
    }
  }

  lemma LeaseStep(s: State, e: Event, sid: string)
    requires Tracked(s) && Enabled(s, e) && sid in s.table && e != Cancel(sid) && !(e.Renew? && e.sid == sid)
    ensures var t := Apply(s, e);
            && t.now == s.now + (if e.Wait? then e.seconds else 0)
            && (sid in t.table ==> t.table[sid].expires == s.table[sid].expires)
            && (sid !in t.table ==> s.table[sid].expires <= s.now) && sid in t.tasks
  {
  }

  lemma {:induction false} PrunedForGood(s: State, run: seq<Event>, sid: string)
    requires Tracked(s) && Legal(s, run) && sid in s.tasks && sid !in s.table
    ensures !Alive(After(s, run), sid) && After(s, run).now == s.now + Elapsed(run)
    decreases |run|
  {
    GoneStaysGone(s, run, sid);
    if run != [] {
      PrunedForGood(Apply(s, run[0]), run[1..], sid);
    }
  }

  /**
   * A new subscription lives for exactly the seconds it was granted, and a renewal in time gives it
   * the seconds granted then, counted from the renewal, whatever else happens in the meantime.
   */
  lemma GrantedForExactly(s: State, e: Event, run: seq<Event>, sid: string, granted: nat)
    requires Tracked(s) && Legal(s, [e] + run) && Undisturbed(run, sid)
    requires || (e.Insert? && e.sid == sid && e.timeoutSeconds == granted)
             || (e.Renew? && e.sid == sid && e.timeoutSeconds == granted
                 && Alive(s, sid) && s.table[sid].service == e.service)
    ensures Alive(After(s, [e] + run), sid) <==> Elapsed(run) < granted
  {
    assert ([e] + run)[1..] == run;
    LeaseRunsOut(Apply(s, e), run, sid);
  }

  /** A renewal that comes too late, or names the other service, gives nothing. */
  lemma RefusedRenewal(s: State, sid: string, service: EventService, seconds: nat, run: seq<Event>)
    requires Tracked(s) && Legal(s, [Renew(sid, service, seconds)] + run) && Undisturbed(run, sid) && sid in s.table
    requires !Alive(s, sid) || s.table[sid].service != service
    ensures Alive(After(s, [Renew(sid, service, seconds)] + run), sid) <==> s.now + Elapsed(run) < s.table[sid].expires
  {
    assert ([Renew(sid, service, seconds)] + run)[1..] == run;
    var t := Apply(s, Renew(sid, service, seconds));
    if sid in t.table {
      LeaseRunsOut(t, run, sid);
    } else {
      PrunedForGood(t, run, sid);
    }
  }

  /** A cancelled subscription hears nothing more: its log stays as it is for ever. */
  lemma {:induction false} CancelledIsSilent(s: State, run: seq<Event>, sid: string)
    requires Tracked(s) && sid in s.tasks && Legal(s, [Cancel(sid)] + run)
    ensures var t := After(s, [Cancel(sid)] + run);
            sid !in t.table && sid in t.log && t.log[sid] == s.log[sid]
  {
    assert ([Cancel(sid)] + run)[1..] == run;
    GoneIsSilent(Apply(s, Cancel(sid)), run, sid);
  }

  lemma {:induction false} GoneIsSilent(s: State, run: seq<Event>, sid: string)
    requires Tracked(s) && Legal(s, run) && sid in s.tasks && sid !in s.table
    ensures sid !in After(s, run).table && sid in After(s, run).log && After(s, run).log[sid] == s.log[sid]
    decreases |run|
  {
    if run != [] {
      GoneIsSilent(Apply(s, run[0]), run[1..], sid);
    }
  }

  /** Announcing reaches exactly the content subscriptions alive, and sends each the published identifier. */
  lemma AnnouncedToTheLiving(s: State, sid: string)
    requires Tracked(s) && Enabled(s, Announce) && sid in s.log
    ensures var t := Apply(s, Announce);
            && sid in t.log
            && (if Alive(s, sid) && s.table[sid].service == ContentDirectory
                then |t.log[sid]| == |s.log[sid]| + 1 && t.log[sid][..|s.log[sid]|] == s.log[sid]
                     && t.log[sid][|s.log[sid]|].updateId == s.outstanding.value
                else t.log[sid] == s.log[sid])
  {
  }
}
