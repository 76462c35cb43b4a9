/** Exactly when the next scan is due, told from the wake-ups so far. */
module Deadlines {
  import opened Prelude
  import opened CatalogSpec
  import opened FileSystem
  import opened Published
  import Scan
  import opened Scanner

  /** Nothing in between rearms the timer: no scan, no relevant change, no watcher error. */
  ghost predicate Calm(run: seq<Wake>, i: nat, n: nat)
    requires n <= |run|
  {
    forall k :: i <= k < n ==> run[k].IrrelevantChange? || run[k].WatcherStopped?
  }

  /** The configuration in force: that of the last successful scan, or else the first one. */
  ghost function InForce(timing: Timing, run: seq<Wake>, n: nat): Timing
    requires n <= |run|
  {
    if n == 0 then timing
    else if run[n - 1].Timer? && run[n - 1].outcome.Some? then run[n - 1].outcome.value.timing
    else InForce(timing, run, n - 1)
  }

  lemma {:induction false} TimingIsInForce(l: Loop, run: seq<Wake>, n: nat)
    requires n <= |run|
    ensures At(l, run, n).timing == InForce(l.timing, run, n)
    decreases n
  {
    if n > 0 {
      TimingIsInForce(l, run, n - 1);
    }
  }

  lemma {:induction false} CalmChangesNothing(l: Loop, run: seq<Wake>, i: nat, n: nat)
    requires i <= n <= |run| && Calm(run, i, n)
    ensures NextScan(At(l, run, n)) == NextScan(At(l, run, i))
    decreases n
  {
    if i < n {
      CalmChangesNothing(l, run, i, n - 1);
    }
  }

  /** Before anything happens, the first scan is due after the delay that the start-up scan calls for. */
  lemma FirstScanIsDue(now: nat, timing: Timing, unsettledFiles: nat, watching: bool, run: seq<Wake>, n: nat)
    requires n <= |run| && Calm(run, 0, n)
    ensures NextScan(At(Begin(now, timing, unsettledFiles, watching), run, n))
         == now + if unsettledFiles > 0 then timing.settle else timing.interval
  {
    CalmChangesNothing(Begin(now, timing, unsettledFiles, watching), run, 0, n);
  }

  /**
   * After a wake-up that rearms the timer the next scan is due exactly: the settle time after a
   * change or watcher error; the new settle time after a scan that withheld files; and the rescan
   * interval in force, rearmed later, after any other scan.
   */
  lemma NextScanIsDue(l: Loop, run: seq<Wake>, i: nat, n: nat)
    requires i < n <= |run| && Calm(run, i + 1, n)
    ensures var due, before := NextScan(At(l, run, n)), InForce(l.timing, run, i);
            match run[i]
            case RelevantChange(time) => due == time + before.settle
            case WatcherError(time) => due == time + before.settle
            case Timer(_, finish, armed, None) => due == armed + before.interval
            case Timer(_, finish, armed, Some(o)) =>
              due == if o.unsettledFiles > 0 then finish + o.timing.settle else armed + o.timing.interval
            case _ => due == NextScan(At(l, run, i))
  {
    CalmChangesNothing(l, run, i + 1, n);
    TimingIsInForce(l, run, i);
  }

  /** A scan that withheld nothing, or failed, is followed by none within the rescan interval. */
  lemma ScansKeepTheInterval(now: nat, l: Loop, run: seq<Wake>, i: nat, j: nat)
    requires Legal(now, l, run) && i < j < |run| && run[i].Timer? && run[j].Timer? && Calm(run, i + 1, j)
    requires run[i].outcome.Some? ==> run[i].outcome.value.unsettledFiles == 0
    ensures run[j].start >= run[i].armed + InForce(l.timing, run, i + 1).interval
  {
    NextScanIsDue(l, run, i, j);
    assert Follows(now, l, run, j);
  }

  /** The same for the first scan of the loop when the start-up scan withheld nothing. */
  lemma FirstScanKeepsTheInterval(now: nat, timing: Timing, watching: bool, run: seq<Wake>, j: nat)
    requires Legal(now, Begin(now, timing, 0, watching), run) && j < |run| && run[j].Timer? && Calm(run, 0, j)
    ensures run[j].start >= now + timing.interval
  {
    FirstScanIsDue(now, timing, 0, watching, run, j);
    assert Follows(now, Begin(now, timing, 0, watching), run, j);
  }

  /**
   * In seconds of the configuration, the loop counting nanoseconds: after a successful scan the next
   * one waits for the rescan interval, or for the settle time if files were withheld; and after a
   * change it waits for the settle time.
   */
  lemma ConfiguredDelays(now: nat, l: Loop, run: seq<Wake>, i: nat, j: nat, x: Scanned)
    requires Legal(now, l, run) && i < j < |run| && run[i].Timer? && run[j].Timer?
    requires run[i].outcome == Some(x.Outcome()) && forall k :: i < k < j ==> !run[k].Timer?
    ensures Calm(run, i + 1, j) ==>
      run[j].start >= if x.result.unsettledFiles > 0 then run[i].finish + x.config.settleSeconds * 1_000_000_000
        else run[i].armed + x.config.rescanSeconds * 1_000_000_000
    ensures forall k :: i < k < j && Dirty(run[k]) ==>
      run[j].start >= run[k].time + x.config.settleSeconds * 1_000_000_000
  {
    assert Follows(now, l, run, j);
    if Calm(run, i + 1, j) {
      NextScanIsDue(l, run, i, j);
    }
    forall k | i < k < j && Dirty(run[k])
      ensures run[j].start >= run[k].time + x.config.settleSeconds * 1_000_000_000
    {
      ScansWaitForQuiet(now, l, run, k, j);
      NoScanKeepsTiming(l, run, i + 1, j);
    }
  }

  lemma {:induction false} NoScanKeepsTiming(l: Loop, run: seq<Wake>, i: nat, n: nat)
    requires i <= n <= |run| && forall k :: i <= k < n ==> !run[k].Timer?
    ensures At(l, run, n).timing == At(l, run, i).timing
    decreases n
  {
    if i < n {
      NoScanKeepsTiming(l, run, i, n - 1);
    }
  }

  /** Once the watcher has stopped, or if there is none, nothing but the timer wakes the loop. */
  lemma {:induction false} OnlyTheTimerIsLeft(now: nat, l: Loop, run: seq<Wake>, n: nat)
    requires Legal(now, l, run) && n <= |run|
    ensures At(l, run, n).watching <==> l.watching && forall k :: 0 <= k < n ==> !run[k].WatcherStopped?
    ensures n < |run| && (!l.watching || exists k :: 0 <= k < n && run[k].WatcherStopped?) ==> run[n].Timer?
    decreases n
  {
    if n > 0 {
      OnlyTheTimerIsLeft(now, l, run, n - 1);
    }
    if n < |run| {
      assert Follows(now, l, run, n);
    }
  }

  /** Every file a settled scan publishes was last modified at least the configured settle time before. */
  lemma SettledScanWaits(host: Host, x: Scanned, id: string)
    requires x.Succeeds(host) && x.config.settleSeconds > 0
    requires id in x.result.catalog.entries && x.result.catalog.entries[id].kind.Media?
    ensures var m := Seen(x.files, x.config, x.result.catalog.entries[id].path);
            && m.Some? && m.value.modified.Some?
            && m.value.modified.value + x.config.settleSeconds * 1_000_000_000 <= x.now
  {
    PublishedFileIsOld(host, x.files, x.config, x.config.SettleTime(), x.now, Ok(x.result), id);
    hide Scan.Meets;
  }
}
