/**
 * Calls of `set` that are dropped half-way, as happens when a client disconnects. The lock is
 * released, but a write or rename already handed to the file system goes on.
 */
module DroppedCalls {
  import opened Prelude
  import opened Bookmarks

  /** What a dropped call left going on. */
  datatype Stray = StrayWrite | StrayRename

  datatype Disk = Disk(store: Store, strays: seq<Stray>)

  /**
   * A step of the call under way; dropping that call; the effects of what goes on without it, any
   * number of writes or one rename; and its end.
   */
  datatype Act =
    | Own(step: Step)
    | Drop
    | LateWrite(index: nat, torn: Content)
    | LateRename(index: nat)
    | LateEnd(index: nat)

  predicate Possible(d: Disk, act: Act) {
    match act
    case Own(step) => Enabled(d.store, step)
    case Drop => !d.store.stage.Idle?
    case LateWrite(index, _) => index < |d.strays| && d.strays[index].StrayWrite?
    case LateRename(index) => index < |d.strays| && d.strays[index].StrayRename? && d.store.temporary.Some?
    case LateEnd(index) => index < |d.strays|
  }

  function Without(strays: seq<Stray>, index: nat): seq<Stray>
    requires index < |strays|
  {
    strays[..index] + strays[index + 1..]
  }

  function Do(codec: Codec, d: Disk, act: Act): Disk
    requires Possible(d, act)
  {
    match act
    case Own(step) => d.(store := Apply(codec, d.store, step))
    case Drop =>
      Disk(d.store.(stage := Idle), d.strays + [if d.store.stage.Serialized? then StrayWrite else StrayRename])
    case LateWrite(_, torn) => d.(store := d.store.(temporary := Some(torn)))
    case LateRename(index) =>
      Disk(d.store.(destination := d.store.temporary, temporary := None), Without(d.strays, index))
    case LateEnd(index) => d.(strays := Without(d.strays, index))
  }

  ghost predicate Run(codec: Codec, d: Disk, acts: seq<Act>)
    decreases |acts|
  {
    acts == [] || (Possible(d, acts[0]) && Run(codec, Do(codec, d, acts[0]), acts[1..]))
  }

  ghost function End(codec: Codec, d: Disk, acts: seq<Act>): Disk
    requires Run(codec, d, acts)
    decreases |acts|
  {
    if acts == [] then d else End(codec, Do(codec, d, acts[0]), acts[1..])
  }

  lemma RunCons(codec: Codec, d: Disk, act: Act, acts: seq<Act>)
    requires Possible(d, act) && Run(codec, Do(codec, d, act), acts)
    ensures Run(codec, d, [act] + acts) && End(codec, d, [act] + acts) == End(codec, Do(codec, d, act), acts)
  {
    assert ([act] + acts)[1..] == acts;
  }

  // --- Without drops -------------------------------------------------------------------------

  /** Nothing goes on behind the lock, and what every step keeps holds. */
  ghost predicate Quiet(codec: Codec, first: Positions, original: Option<Content>, d: Disk) {
    d.strays == [] && Inv(codec, first, original, d.store)
  }

  lemma {:induction false} QuietWithoutDrops(codec: Codec, first: Positions, original: Option<Content>, d: Disk,
                                             acts: seq<Act>)
    requires Quiet(codec, first, original, d) && Run(codec, d, acts) && Drop !in acts
    ensures Quiet(codec, first, original, End(codec, d, acts))
    decreases |acts|
  {
    if acts != [] {
      assert acts[0] in acts && acts[0].Own?;
      InvStep(codec, first, original, d.store, acts[0].step);
      hide Inv;
      QuietWithoutDrops(codec, first, original, Do(codec, d, acts[0]), acts[1..]);
    }
  }

  // --- With drops ----------------------------------------------------------------------------

  /** Everything can be printed, and nothing prints as the empty file. */
  ghost predicate Prints(codec: Codec) {
    forall m :: codec.serialize(m).Some? && codec.serialize(m) != Some([])
  }

  lemma EmptyIsInconsistent(codec: Codec, first: Positions, original: Option<Content>, s: Store)
    requires Prints(codec) && original != Some([]) && s.destination == Some([])
    ensures !Consistent(codec, first, original, s)
  {
    hide Replay;
  }

  /** Back to where a call can begin. */
  function Settle(d: Disk): (acts: seq<Act>)
    ensures Drop !in acts
  {
    match d.store.stage
    case Idle => []
    case Serialized(_) => [Own(WriteFails)]
    case Written(_) => [Own(RenameFails)]
  }

  /** A call whose file is torn behind its back: it reports success all the same. */
  function Torn(call: Call, stray: Stray): (acts: seq<Act>)
    ensures Drop !in acts
  {
    match stray
    case StrayWrite => [Own(Begin(call))] + ([Own(WriteDone)] + ([LateWrite(0, [])] + [Own(RenameDone)]))
    case StrayRename => [Own(Begin(call))] + ([Own(WriteSome([]))] + [LateRename(0)])
  }

  lemma RunOne(codec: Codec, d: Disk, act: Act)
    requires Possible(d, act)
    ensures Run(codec, d, [act]) && End(codec, d, [act]) == Do(codec, d, act)
  {
    assert [act][1..] == [];
    assert Run(codec, Do(codec, d, act), []);
  }

  lemma TornEmpties(codec: Codec, d: Disk, call: Call)
    requires Prints(codec) && d.store.stage.Idle? && d.strays != []
    ensures Run(codec, d, Torn(call, d.strays[0]))
    ensures End(codec, d, Torn(call, d.strays[0])).store.destination == Some([])
  {
    var begun := Do(codec, d, Own(Begin(call)));
    assert begun.store.stage.Serialized? && begun.strays == d.strays;
    if d.strays[0].StrayWrite? {
      var written := Do(codec, begun, Own(WriteDone));
      var torn := Do(codec, written, LateWrite(0, []));
      hide Do;
      RunOne(codec, torn, Own(RenameDone));
      RunCons(codec, written, LateWrite(0, []), [Own(RenameDone)]);
      RunCons(codec, begun, Own(WriteDone), [LateWrite(0, [])] + [Own(RenameDone)]);
      RunCons(codec, d, Own(Begin(call)), [Own(WriteDone)] + ([LateWrite(0, [])] + [Own(RenameDone)]));
    } else {
      var torn := Do(codec, begun, Own(WriteSome([])));
      hide Do;
      RunOne(codec, torn, LateRename(0));
      RunCons(codec, begun, Own(WriteSome([])), [LateRename(0)]);
      RunCons(codec, d, Own(Begin(call)), [Own(WriteSome([]))] + [LateRename(0)]);
    }
  }

  lemma SettleSettles(codec: Codec, d: Disk)
    ensures Run(codec, d, Settle(d))
    ensures var t := End(codec, d, Settle(d)); t.store.stage.Idle? && t.strays == d.strays
  {
    match d.store.stage
    case Idle =>
    case Serialized(_) => RunOne(codec, d, Own(WriteFails));
    case Written(_) => RunOne(codec, d, Own(RenameFails));
  }

  lemma {:induction false} RunConcat(codec: Codec, d: Disk, a: seq<Act>, b: seq<Act>)
    requires Run(codec, d, a) && Run(codec, End(codec, d, a), b)
    ensures Run(codec, d, a + b) && End(codec, d, a + b) == End(codec, End(codec, d, a), b)
    decreases |a|
  {
    hide Do, Possible;
    if a == [] {
      assert a + b == b;
    } else {
      RunConcat(codec, Do(codec, d, a[0]), a[1..], b);
      assert a + b == [a[0]] + (a[1..] + b);
      RunCons(codec, d, a[0], a[1..] + b);
    }
  }

  /**
   * From a state in which everything is in order, the file stays consistent whatever calls, failures
   * and crashes follow, no further call being dropped, exactly when no dropped call has left a write
   * or rename going on.
   */
  lemma ConsistentExactlyWithoutStrays(codec: Codec, first: Positions, original: Option<Content>, d: Disk)
    requires Prints(codec) && original != Some([]) && Inv(codec, first, original, d.store)
    ensures (forall acts :: Run(codec, d, acts) && Drop !in acts ==>
      Consistent(codec, first, original, End(codec, d, acts).store))
       <==> d.strays == []
  {
    if d.strays == [] {
      forall acts | Run(codec, d, acts) && Drop !in acts
        ensures Consistent(codec, first, original, End(codec, d, acts).store)
      {
        QuietWithoutDrops(codec, first, original, d, acts);
      }
    } else {
      var call := Call("", 0);
      SettleSettles(codec, d);
      var settled := End(codec, d, Settle(d));
      TornEmpties(codec, settled, call);
      hide Settle, Torn, Run, End, Consistent, Inv, Prints;
      var acts := Settle(d) + Torn(call, d.strays[0]);
      RunConcat(codec, d, Settle(d), Torn(call, d.strays[0]));
      EmptyIsInconsistent(codec, first, original, End(codec, d, acts).store);
      assert Drop !in acts;
    }
  }

  /**
   * A concrete run: a call is dropped while it writes; the next call writes the same temporary file
   * and is about to rename it when the first write truncates it. The call succeeds and the bookmarks
   * are gone.
   */
  lemma DroppedCallTearsTheFile(codec: Codec, first: Positions, temporary: Option<Content>, original: Option<Content>,
                                a: Call, b: Call)
    requires Prints(codec) && original != Some([])
    ensures var d := Disk(Opened(first, temporary, original), []);
            var acts := [Own(Begin(a))] + ([Drop] + Torn(b, StrayWrite));
            && Run(codec, d, acts)
            && End(codec, d, acts).store.destination == Some([])
            && !Consistent(codec, first, original, End(codec, d, acts).store)
  {
    var d := Disk(Opened(first, temporary, original), []);
    var begun := Do(codec, d, Own(Begin(a)));
    assert begun.store.stage.Serialized?;
    var dropped := Do(codec, begun, Drop);
    assert dropped.strays[0] == StrayWrite;
    TornEmpties(codec, dropped, b);
    hide Do, Torn, Consistent;
    RunCons(codec, begun, Drop, Torn(b, StrayWrite));
    RunCons(codec, d, Own(Begin(a)), [Drop] + Torn(b, StrayWrite));
    EmptyIsInconsistent(codec, first, original, End(codec, dropped, Torn(b, StrayWrite)).store);
  }
}
