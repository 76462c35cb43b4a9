/** The debounced scanner loop and the rescan it triggers. */
module Scanner {
  import opened Prelude
  import opened Entries
  import opened Traversal
  import opened Shares
  import opened FileSystem
  import opened Reading
  import opened CatalogSpec
  import opened CatalogBuilder
  import opened Events
  import opened Scan

  /** The two delays of the shared configuration, on the scanner's clock. */
  datatype Timing = Timing(settle: nat, interval: nat)

  datatype Outcome = Outcome(timing: Timing, unsettledFiles: nat)

  /**
   * What the loop wakes up for. A scan starts when its timer fires and reads the clock twice
   * after it has ended; `None` is a rejected reload or a failed scan.
   */
  datatype Wake =
    | Timer(start: nat, finish: nat, armed: nat, outcome: Option<Outcome>)
    | RelevantChange(time: nat)
    | IrrelevantChange(time: nat)
    | WatcherError(time: nat)
    | WatcherStopped(time: nat)

  /** The variables of the loop, with the shared timing it reads. */
  datatype Loop = Loop(settleDeadline: Option<nat>, fallbackDeadline: nat, watching: bool, timing: Timing)

  function Begin(now: nat, timing: Timing, unsettledFiles: nat, watching: bool): Loop {
    Loop(if unsettledFiles > 0 then Some(now + timing.settle) else None, now + timing.interval, watching, timing)
  }

  function NextScan(l: Loop): nat {
    if l.settleDeadline.Some? then l.settleDeadline.value else l.fallbackDeadline
  }

  function Handle(l: Loop, w: Wake): Loop {
    match w
    case Timer(_, finish, armed, outcome) =>
      var timing := if outcome.Some? then outcome.value.timing else l.timing;
      Loop(
        if outcome.Some? && outcome.value.unsettledFiles > 0 then Some(finish + outcome.value.timing.settle) else None,
        armed + timing.interval, l.watching, timing)
    case RelevantChange(time) => l.(settleDeadline := Some(time + l.timing.settle))
    case IrrelevantChange(_) => l
    case WatcherError(time) => l.(settleDeadline := Some(time + l.timing.settle))
    case WatcherStopped(_) => l.(watching := false)
  }

  /** A timer fires no earlier than the next scan is due; messages come only from a live watcher. */
  predicate Possible(l: Loop, w: Wake) {
    if w.Timer? then NextScan(l) <= w.start <= w.finish <= w.armed else l.watching
  }

  function StartOf(w: Wake): nat {
    if w.Timer? then w.start else w.time
  }

  function EndOf(w: Wake): nat {
    if w.Timer? then w.armed else w.time
  }

  /** The loop after the first `n` wake-ups. */
  ghost function At(l: Loop, run: seq<Wake>, n: nat): Loop
    requires n <= |run|
  {
    if n == 0 then l else Handle(At(l, run, n - 1), run[n - 1])
  }

  /** A run of the loop begun at `now`: wake-ups are possible and follow one another in time. */
  ghost predicate Legal(now: nat, l: Loop, run: seq<Wake>) {
    forall n :: 0 <= n < |run| ==> Follows(now, l, run, n)
  }

  /** The `n`-th wake-up is possible in the state reached and comes after the one before. */
  ghost predicate Follows(now: nat, l: Loop, run: seq<Wake>, n: nat)
    requires n < |run|
  {
    Possible(At(l, run, n), run[n]) && (if n == 0 then now else EndOf(run[n - 1])) <= StartOf(run[n])
  }

  predicate Dirty(w: Wake) {
    w.RelevantChange? || w.WatcherError?
  }

  /** The loop itself, fed with the wake-ups in order until shutdown. */
  method RunScanner(now: nat, timing: Timing, unsettledFiles: nat, watching: bool, run: seq<Wake>) returns (l: Loop)
    ensures l == At(Begin(now, timing, unsettledFiles, watching), run, |run|)
  {
    var shared := timing;
    var watcher := watching;
    var fallbackDeadline: nat := now + shared.interval;
    var settleDeadline: Option<nat> := if unsettledFiles > 0 then Some(now + shared.settle) else None;
    ghost var first := Begin(now, timing, unsettledFiles, watching);
    for n := 0 to |run|
      invariant Loop(settleDeadline, fallbackDeadline, watcher, shared) == At(first, run, n)
    {
      match run[n] {
        case Timer(_, finish, armed, outcome) =>
          settleDeadline := None;
          if outcome.Some? {
            shared := outcome.value.timing;
            if outcome.value.unsettledFiles > 0 {
              settleDeadline := Some(finish + shared.settle);
            }
          }
          fallbackDeadline := armed + shared.interval;
        case RelevantChange(time) =>
          settleDeadline := Some(time + shared.settle);
        case IrrelevantChange(_) =>
        case WatcherError(time) =>
          settleDeadline := Some(time + shared.settle);
        case WatcherStopped(_) =>
          watcher := false;
      }
    }
    return Loop(settleDeadline, fallbackDeadline, watcher, shared);
  }

  // --- Debounce ------------------------------------------------------------------------------

  lemma {:induction false} TimeFlows(now: nat, l: Loop, run: seq<Wake>, i: nat, j: nat)
    requires Legal(now, l, run) && i < j < |run|
    ensures EndOf(run[i]) <= StartOf(run[j])
    decreases j
  {
    if i + 1 < j {
      TimeFlows(now, l, run, i, j - 1);
      assert Follows(now, l, run, j - 1);
      assert StartOf(run[j - 1]) <= EndOf(run[j - 1]);
    }
    assert Follows(now, l, run, j);
  }

  predicate HeldUntil(l: Loop, time: nat) {
    l.settleDeadline.Some? && l.settleDeadline.value >= time
  }

  /** Apart from scans, a wake-up keeps the timing and leaves the deadline alone or starts it anew. */
  lemma HandleOne(l: Loop, w: Wake)
    requires !w.Timer?
    ensures Handle(l, w).timing == l.timing
    ensures Handle(l, w).settleDeadline == if Dirty(w) then Some(w.time + l.timing.settle) else l.settleDeadline
  {
  }

  /** A change keeps the next scan at bay for the settle time, however many more changes follow. */
  lemma {:induction false} ChangeHoldsBack(now: nat, l: Loop, run: seq<Wake>, i: nat, n: nat)
    requires Legal(now, l, run) && i < n <= |run| && Dirty(run[i])
    requires forall k :: i < k < n ==> !run[k].Timer?
    ensures var a := At(l, run, n);
            && a.timing == At(l, run, i).timing
            && HeldUntil(a, run[i].time + a.timing.settle)
    decreases n
  {
    hide Handle;
    HandleOne(At(l, run, n - 1), run[n - 1]);
    if i + 1 < n {
      ChangeHoldsBack(now, l, run, i, n - 1);
      TimeFlows(now, l, run, i, n - 1);
    }
  }

  /**
   * Debounce: when a scan starts, every relevant change and every watcher error handled since the
   * previous scan is at least the settle time old.
   */
  lemma ScansWaitForQuiet(now: nat, l: Loop, run: seq<Wake>, i: nat, j: nat)
    requires Legal(now, l, run) && i < j < |run| && Dirty(run[i]) && run[j].Timer?
    requires forall k :: i < k < j ==> !run[k].Timer?
    ensures run[j].start >= run[i].time + At(l, run, j).timing.settle
  {
    ChangeHoldsBack(now, l, run, i, j);
    assert Follows(now, l, run, j);
  }

  /** When the loop last rearmed a deadline: the last change or watcher error, or the end of the last scan. */
  ghost function LastRearmed(now: nat, run: seq<Wake>, n: nat): nat
    requires n <= |run|
  {
    if n == 0 then now
    else if Dirty(run[n - 1]) || run[n - 1].Timer? then EndOf(run[n - 1])
    else LastRearmed(now, run, n - 1)
  }

  /** The pending deadline is the settle time or the rescan interval after `base`, or earlier. */
  predicate DueWithin(l: Loop, base: nat) {
    if l.settleDeadline.Some? then l.settleDeadline.value <= base + l.timing.settle
    else l.fallbackDeadline <= base + l.timing.interval
  }

  lemma DueStep(l: Loop, w: Wake, base: nat)
    requires DueWithin(l, base) && Possible(l, w)
    ensures DueWithin(Handle(l, w), if Dirty(w) || w.Timer? then EndOf(w) else base)
  {
  }

  /** A scan is always scheduled, and soon: within the longer of the two delays of the last rearming. */
  lemma {:induction false} ScanIsDueSoon(now: nat, timing: Timing, unsettledFiles: nat, watching: bool,
                                         run: seq<Wake>, n: nat)
    requires Legal(now, Begin(now, timing, unsettledFiles, watching), run) && n <= |run|
    ensures var a := At(Begin(now, timing, unsettledFiles, watching), run, n);
            var base := LastRearmed(now, run, n);
            DueWithin(a, base) && NextScan(a) <= base + Max(a.timing.settle, a.timing.interval)
    decreases n
  {
    hide Handle;
    if n > 0 {
      ScanIsDueSoon(now, timing, unsettledFiles, watching, run, n - 1);
      var a := At(Begin(now, timing, unsettledFiles, watching), run, n - 1);
      assert Follows(now, Begin(now, timing, unsettledFiles, watching), run, n - 1);
      DueStep(a, run[n - 1], LastRearmed(now, run, n - 1));
    }
  }

  // --- Settling ------------------------------------------------------------------------------

  predicate Successful(w: Wake) {
    w.Timer? && w.outcome.Some?
  }

  /** After a scan that withheld files, no scan starts before its settle time has passed. */
  lemma {:induction false} WithheldHoldsBack(now: nat, l: Loop, run: seq<Wake>, i: nat, n: nat)
    requires Legal(now, l, run) && i < n <= |run|
    requires Successful(run[i]) && run[i].outcome.value.unsettledFiles > 0
    requires forall k :: i < k < n ==> !Successful(run[k])
    ensures var a := At(l, run, n);
            var ripe := run[i].finish + run[i].outcome.value.timing.settle;
            && a.timing == run[i].outcome.value.timing
            && (|| (a.settleDeadline.Some? && a.settleDeadline.value >= ripe)
                || EndOf(run[n - 1]) >= ripe)
    decreases n
  {
    if i + 1 < n {
      WithheldHoldsBack(now, l, run, i, n - 1);
      TimeFlows(now, l, run, i, n - 1);
      assert Follows(now, l, run, n - 1);
      assert EndOf(run[n - 2]) <= StartOf(run[n - 1]) <= EndOf(run[n - 1]);
      assert Follows(now, l, run, i);
      assert run[i].finish <= EndOf(run[i]);
    }
  }

  /**
   * The next successful scan after one that withheld files starts at least the settle time later,
   * whatever changes, errors and failed scans come in between.
   */
  lemma NextSuccessIsRipe(now: nat, l: Loop, run: seq<Wake>, i: nat, j: nat)
    requires Legal(now, l, run) && i < j < |run|
    requires Successful(run[i]) && run[i].outcome.value.unsettledFiles > 0 && Successful(run[j])
    requires forall k :: i < k < j ==> !Successful(run[k])
    ensures run[j].start >= run[i].finish + run[i].outcome.value.timing.settle
  {
    WithheldHoldsBack(now, l, run, i, j);
    assert Follows(now, l, run, j);
    assert EndOf(run[j - 1]) <= StartOf(run[j]);
  }

  /** After a start-up scan that withheld files, no scan starts before the settle time has passed. */
  lemma {:induction false} StartupHoldsBack(now: nat, timing: Timing, unsettledFiles: nat, watching: bool,
                                            run: seq<Wake>, n: nat)
    requires Legal(now, Begin(now, timing, unsettledFiles, watching), run) && n <= |run| && unsettledFiles > 0
    requires forall k :: 0 <= k < n ==> !Successful(run[k])
    ensures var a := At(Begin(now, timing, unsettledFiles, watching), run, n);
            && a.timing == timing
            && (|| (a.settleDeadline.Some? && a.settleDeadline.value >= now + timing.settle)
                || (n > 0 && EndOf(run[n - 1]) >= now + timing.settle))
            && (n > 0 ==> now <= EndOf(run[n - 1]))
    decreases n
  {
    if n > 0 {
      StartupHoldsBack(now, timing, unsettledFiles, watching, run, n - 1);
      assert Follows(now, Begin(now, timing, unsettledFiles, watching), run, n - 1);
      assert StartOf(run[n - 1]) <= EndOf(run[n - 1]);
    }
  }

  /** The first successful scan after a start-up scan that withheld files starts at least the settle time later. */
  lemma FirstSuccessIsRipe(now: nat, timing: Timing, unsettledFiles: nat, watching: bool, run: seq<Wake>, j: nat)
    requires Legal(now, Begin(now, timing, unsettledFiles, watching), run) && j < |run| && unsettledFiles > 0
    requires Successful(run[j]) && forall k :: 0 <= k < j ==> !Successful(run[k])
    ensures run[j].start >= now + timing.settle
  {
    StartupHoldsBack(now, timing, unsettledFiles, watching, run, j);
    assert Follows(now, Begin(now, timing, unsettledFiles, watching), run, j);
  }

  /** A settled scan: what it saw, with which configuration, when it read the clock, and its result. */
  datatype Scanned = Scanned(files: Files, config: Config, now: nat, result: CatalogScan)
  {
    function Options(): ScanOptions {
      config.Options(config.SettleTime(), now)
    }

    ghost predicate Succeeds(host: Host) {
      files.Finite() && Meets(host, files, Options(), config.shares, Ok(result))
    }

    function Outcome(): Outcome {
      OutcomeOf(config, result)
    }
  }

  /**
   * `x` withheld the entry `e` from a share; the share, what it shows of links and hidden names,
   * the file and the settle time stay as they are.
   */
  ghost predicate Stays(host: Host, x: Scanned, y: Scanned, share: Share, e: Entry)
    requires x.Succeeds(host) && y.Succeeds(host)
  {
    && share in x.config.shares && share in y.config.shares
    && LaterOptions(x.Options(), y.Options())
    && x.files.canonicalize(share.path) == y.files.canonicalize(share.path)
    && (var held := ExploreShare(host, x.files, x.Options(), share); held.Some? && e in held.value.withheld)
    && KeptMetadata(x.files, x.Options(), y.files, y.Options(), e.path)
  }

  /** Moreover `y` reads the file's directory. */
  ghost predicate StaysEligible(host: Host, x: Scanned, y: Scanned, share: Share, e: Entry)
    requires x.Succeeds(host) && y.Succeeds(host)
  {
    Stays(host, x, y, share, e) && ReadsItem(host, y.files, y.Options(), share, e.path)
  }

  lemma WithheldIsUnsettled(host: Host, x: Scanned, share: Share, e: Entry)
    requires x.Succeeds(host) && share in x.config.shares
    requires var held := ExploreShare(host, x.files, x.Options(), share); held.Some? && e in held.value.withheld
    ensures x.result.unsettledFiles > 0
  {
    hide Meets, ExploreShare;
    ShareIsPublished(host, x.files, x.Options(), x.config.shares, share, Ok(x.result));
  }

  lemma LaterScanPublishes(host: Host, x: Scanned, y: Scanned, share: Share, e: Entry)
    requires x.Succeeds(host) && y.Succeeds(host) && StaysEligible(host, x, y, share, e)
    requires y.now >= x.now + x.config.SettleTime()
    ensures e.id in y.result.catalog.entries && y.result.catalog.entries[e.id] == e
  {
    hide Meets, ExploreShare, KeptMetadata, ReadsItem;
    WithheldIsInLaterCatalog(host, x.files, x.Options(), y.files, y.Options(), y.config.shares, share, Ok(y.result), e);
  }

  /**
   * A file withheld by one scan is in the catalog of the next successful one, whatever changes,
   * errors and failed scans come in between. Each scan reads the clock between its start and its
   * end.
   */
  lemma WithheldFileIsPublished(now: nat, l: Loop, run: seq<Wake>, i: nat, j: nat, host: Host, x: Scanned, y: Scanned,
                                share: Share, e: Entry)
    requires Legal(now, l, run) && i < j < |run| && run[i].Timer? && run[j].Timer?
    requires forall k :: i < k < j ==> !Successful(run[k])
    requires x.Succeeds(host) && run[i].outcome == Some(x.Outcome()) && x.now <= run[i].finish
    requires y.Succeeds(host) && run[j].outcome == Some(y.Outcome()) && run[j].start <= y.now
    requires StaysEligible(host, x, y, share, e)
    ensures e.id in y.result.catalog.entries && y.result.catalog.entries[e.id] == e
  {
    hide Meets, ExploreShare, Legal, Scanned.Succeeds, LaterOptions, KeptMetadata, ReadsItem;
    WithheldIsUnsettled(host, x, share, e);
    NextSuccessIsRipe(now, l, run, i, j);
    LaterScanPublishes(host, x, y, share, e);
  }

  /**
   * The same from the file system alone: `tree` is what the later scan walks, which sees its
   * listings in some order. No directory on the way to the file has another name in it.
   */
  lemma WithheldFileIsPublishedInEveryOrder(
      now: nat, l: Loop, run: seq<Wake>, i: nat, j: nat, host: Host, x: Scanned, y: Scanned, tree: Files,
      share: Share, e: Entry)
    requires Legal(now, l, run) && i < j < |run| && run[i].Timer? && run[j].Timer?
    requires forall k :: i < k < j ==> !Successful(run[k])
    requires x.Succeeds(host) && run[i].outcome == Some(x.Outcome()) && x.now <= run[i].finish
    requires y.Succeeds(host) && run[j].outcome == Some(y.Outcome()) && run[j].start <= y.now
    requires tree.Finite() && SameUpToOrder(tree, y.files) && Stays(host, x, y, share, e)
    requires SurelyReadsItem(host, tree, y.Options(), share, e.path)
    ensures e.id in y.result.catalog.entries && y.result.catalog.entries[e.id] == e
  {
    hide Meets, ExploreShare, Legal, LaterOptions, KeptMetadata, ReadsItem, Stays;
    SurelyReadInOrder(host, tree, y.files, y.Options(), share, e.path);
    hide Scanned.Succeeds;
    WithheldFileIsPublished(now, l, run, i, j, host, x, y, share, e);
  }

  /** The same for a file withheld by the scan at start-up, before the loop begins at `now`. */
  lemma StartupFileIsPublished(now: nat, watching: bool, run: seq<Wake>, j: nat, host: Host, x: Scanned, y: Scanned,
                               share: Share, e: Entry)
    requires x.Succeeds(host) && x.now <= now
    requires Legal(now, Begin(now, x.Outcome().timing, x.result.unsettledFiles, watching), run)
    requires j < |run| && run[j].Timer? && forall k :: 0 <= k < j ==> !Successful(run[k])
    requires y.Succeeds(host) && run[j].outcome == Some(y.Outcome()) && run[j].start <= y.now
    requires StaysEligible(host, x, y, share, e)
    ensures e.id in y.result.catalog.entries && y.result.catalog.entries[e.id] == e
  {
    hide Meets, ExploreShare, Legal, Scanned.Succeeds, LaterOptions, KeptMetadata, ReadsItem;
    WithheldIsUnsettled(host, x, share, e);
    FirstSuccessIsRipe(now, x.Outcome().timing, x.result.unsettledFiles, watching, run, j);
    LaterScanPublishes(host, x, y, share, e);
  }

  // --- Rescanning ----------------------------------------------------------------------------

  function OutcomeOf(config: Config, scan: CatalogScan): Outcome {
    Outcome(Timing(config.SettleTime(), config.RescanInterval()), scan.unsettledFiles)
  }

  /** Subscribers notice nothing. */
  predicate Unchanged(before: Table, after: Table, messages: seq<Notification>) {
    after == before && messages == []
  }

  /** The state shared between the scanner and the request handlers. */
  class Server {
    var config: Config
    var catalog: Snapshot
    const events: EventManager

    constructor (config: Config, catalog: Snapshot, events: EventManager)
      ensures this.config == config && this.catalog == catalog && this.events == events
    {
      this.config := config;
      this.catalog := catalog;
      this.events := events;
    }

    /**
     * `rescan_catalog`, given what reloading and scanning yielded. `shown` and `found` are the
     * entries behind the published and the new catalog.
     */
    method RescanCatalog(reloaded: Option<(Config, CatalogScan)>, now: nat, ghost shown: multiset<Entry>,
                         ghost found: multiset<Entry>)
      returns (outcome: Option<Outcome>, messages: seq<Notification>)
      requires IsCatalogOf(catalog, shown)
      requires reloaded.Some? ==> IsCatalogOf(reloaded.value.1.catalog, found)
      modifies this, events
      ensures outcome.Some? <==> reloaded.Some?
      ensures reloaded.None? ==> Unchanged(old(events.subscriptions), events.subscriptions, messages)
      ensures reloaded.None? ==> config == old(config) && catalog == old(catalog)
      ensures reloaded.Some? ==> config == reloaded.value.0 && catalog == reloaded.value.1.catalog
      ensures reloaded.Some? ==> outcome == Some(OutcomeOf(reloaded.value.0, reloaded.value.1))
      ensures reloaded.Some? && reloaded.value.1.catalog == old(catalog) ==>
        Unchanged(old(events.subscriptions), events.subscriptions, messages)
      ensures reloaded.Some? && reloaded.value.1.catalog != old(catalog) ==>
        && events.subscriptions == AfterChange(old(events.subscriptions), now)
        && Announces(messages, old(events.subscriptions), catalog.updateId, now)
    {
      hide IsCatalogOf, AfterChange, Announces, CatalogSpec.ObjectUpdateId;
      messages := [];
      if reloaded.None? {
        return None, messages;
      }
      var (newConfig, scan) := reloaded.value;
      SameContentIsSameCatalog(catalog, scan.catalog, shown, found);
      if !HasSameContent(catalog, scan.catalog) {
        var updateId := scan.catalog.updateId;
        catalog := scan.catalog;
        messages := events.NotifyContentChanged(updateId, now);
      }
      config := newConfig;
      return Some(OutcomeOf(newConfig, scan)), messages;
    }
  }
}
