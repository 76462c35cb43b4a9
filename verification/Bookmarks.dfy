/** The bookmark store and what a crash can leave on disk. */
module Bookmarks {
  import opened Prelude

  type Positions = map<string, u64>
  type Content = seq<byte>

  /** The TOML serializer; printing may fail, and what was printed parses back. */
  datatype Codec = Codec(serialize: Positions -> Option<Content>, deserialize: Content -> Option<Positions>)
  {
    ghost predicate Faithful() {
      forall m :: serialize(m).Some? ==> deserialize(serialize(m).value) == Some(m)
    }
  }

  /** One `set`: position zero removes the bookmark. */
  datatype Call = Call(objectId: string, position: u64)

  function Updated(m: Positions, c: Call): Positions {
    if c.position == 0 then map k | k in m && k != c.objectId :: m[k] else m[c.objectId := c.position]
  }

  /** The positions after a series of calls. */
  function Replay(m: Positions, calls: seq<Call>): Positions {
    if calls == [] then m else Updated(Replay(m, calls[..|calls| - 1]), calls[|calls| - 1])
  }

  /** The bookmark of an object, if it has one. */
  function Position(m: Positions, id: string): Option<u64> {
    if id in m then Some(m[id]) else None
  }

  /** Calls on other objects leave a bookmark alone. */
  lemma {:induction false} OthersLeaveAlone(m: Positions, calls: seq<Call>, id: string)
    requires forall c :: c in calls ==> c.objectId != id
    ensures Position(Replay(m, calls), id) == Position(m, id)
    decreases |calls|
  {
    if calls != [] {
      assert calls[|calls| - 1] in calls;
      OthersLeaveAlone(m, calls[..|calls| - 1], id);
    }
  }

  /** The last call on an object decides its bookmark: zero removes it, any other position replaces it. */
  lemma {:induction false} LastCallWins(m: Positions, calls: seq<Call>, i: nat)
    requires i < |calls| && forall j :: i < j < |calls| ==> calls[j].objectId != calls[i].objectId
    ensures Position(Replay(m, calls), calls[i].objectId)
         == if calls[i].position == 0 then None else Some(calls[i].position)
    decreases |calls|
  {
    if i < |calls| - 1 {
      assert forall j :: 0 <= j < |calls| - 1 ==> calls[..|calls| - 1][j] == calls[j];
      LastCallWins(m, calls[..|calls| - 1], i);
    }
  }

  /** Where a call stands between its effects on the disk. */
  datatype Stage = Idle | Serialized(content: Content) | Written(content: Content)

  datatype Store = Store(
    positions: Positions, temporary: Option<Content>, destination: Option<Content>, stage: Stage, calls: seq<Call>)

  /** The effects of `set` one at a time; a crash may come after any of them. */
  datatype Step =
    | Begin(call: Call)
    | WriteSome(torn: Content)
    | WriteFails
    | WriteDone
    | RenameFails
    | RenameDone

  /** The lock lets a call begin only when no other is under way. */
  predicate Enabled(s: Store, step: Step) {
    match step
    case Begin(_) => s.stage.Idle?
    case WriteSome(_) => s.stage.Serialized?
    case WriteFails => s.stage.Serialized?
    case WriteDone => s.stage.Serialized?
    case RenameFails => s.stage.Written?
    case RenameDone => s.stage.Written?
  }

  function Apply(codec: Codec, s: Store, step: Step): Store
    requires Enabled(s, step)
  {
    match step
    case Begin(call) =>
      var positions := Updated(s.positions, call);
      var content := codec.serialize(positions);
      var stage := if content.Some? then Serialized(content.value) else Idle;
      Store(positions, s.temporary, s.destination, stage, s.calls + [call])
    case WriteSome(torn) => s.(temporary := Some(torn))
    case WriteFails => s.(stage := Idle)
    case WriteDone => s.(temporary := Some(s.stage.content), stage := Written(s.stage.content))
    case RenameFails => s.(stage := Idle)
    case RenameDone => s.(destination := s.temporary, temporary := None, stage := Idle)
  }

  ghost predicate Legal(codec: Codec, s: Store, steps: seq<Step>)
    decreases |steps|
  {
    steps == [] || (Enabled(s, steps[0]) && Legal(codec, Apply(codec, s, steps[0]), steps[1..]))
  }

  function After(codec: Codec, s: Store, steps: seq<Step>): Store
    requires Legal(codec, s, steps)
    decreases |steps|
  {
    if steps == [] then s else After(codec, Apply(codec, s, steps[0]), steps[1..])
  }

  function Opened(positions: Positions, temporary: Option<Content>, destination: Option<Content>): Store {
    Store(positions, temporary, destination, Idle, [])
  }

  // --- What every step keeps -----------------------------------------------------------------

  /** `content` is the serialisation of the positions after the first `k` calls. */
  ghost predicate PrefixPrinted(codec: Codec, first: Positions, calls: seq<Call>, content: Content, k: nat) {
    k <= |calls| && codec.serialize(Replay(first, calls[..k])) == Some(content)
  }

  /** The destination is untouched or holds the positions after some prefix of the calls. */
  ghost predicate Consistent(codec: Codec, first: Positions, original: Option<Content>, s: Store) {
    s.destination == original
    || (s.destination.Some? && exists k: nat :: PrefixPrinted(codec, first, s.calls, s.destination.value, k))
  }

  ghost predicate Inv(codec: Codec, first: Positions, original: Option<Content>, s: Store) {
    && s.positions == Replay(first, s.calls)
    && (s.stage.Serialized? ==> codec.serialize(s.positions) == Some(s.stage.content))
    && (s.stage.Written? ==>
         codec.serialize(s.positions) == Some(s.stage.content) && s.temporary == Some(s.stage.content))
    && Consistent(codec, first, original, s)
  }

  lemma ConsistentLater(codec: Codec, first: Positions, original: Option<Content>, s: Store, t: Store)
    requires Consistent(codec, first, original, s) && t.destination == s.destination && s.calls <= t.calls
    ensures Consistent(codec, first, original, t)
  {
    hide Replay;
    if s.destination != original {
      var k: nat :| PrefixPrinted(codec, first, s.calls, s.destination.value, k);
      assert t.calls[..k] == s.calls[..k];
      assert PrefixPrinted(codec, first, t.calls, t.destination.value, k);
    }
  }

  lemma InvStep(codec: Codec, first: Positions, original: Option<Content>, s: Store, step: Step)
    requires Inv(codec, first, original, s) && Enabled(s, step)
    ensures Inv(codec, first, original, Apply(codec, s, step))
  {
    hide Consistent, Updated;
    var t := Apply(codec, s, step);
    if step.RenameDone? {
      Renamed(codec, first, original, s);
    } else {
      ConsistentLater(codec, first, original, s, t);
      assert step.Begin? ==> t.calls[..|s.calls|] == s.calls;
    }
  }

  lemma Renamed(codec: Codec, first: Positions, original: Option<Content>, s: Store)
    requires Inv(codec, first, original, s) && s.stage.Written?
    ensures Consistent(codec, first, original, Apply(codec, s, RenameDone))
  {
    hide Replay;
    assert s.calls[..|s.calls|] == s.calls;
    assert PrefixPrinted(codec, first, s.calls, s.stage.content, |s.calls|);
  }

  lemma {:induction false} InvAlways(codec: Codec, first: Positions, original: Option<Content>, s: Store,
                                     steps: seq<Step>)
    requires Inv(codec, first, original, s) && Legal(codec, s, steps)
    ensures Inv(codec, first, original, After(codec, s, steps))
    decreases |steps|
  {
    if steps != [] {
      InvStep(codec, first, original, s, steps[0]);
      InvAlways(codec, first, original, Apply(codec, s, steps[0]), steps[1..]);
    }
  }

  /**
   * Crash consistency: however many calls are made, whichever writes and renames fail, and
   * wherever a crash strikes, the file holds what it held at first or the positions after some
   * prefix of the calls, and memory holds the positions after all of them.
   */
  lemma CrashConsistent(codec: Codec, first: Positions, temporary: Option<Content>, original: Option<Content>,
                        steps: seq<Step>)
    requires Legal(codec, Opened(first, temporary, original), steps)
    ensures var s := After(codec, Opened(first, temporary, original), steps);
            Consistent(codec, first, original, s) && s.positions == Replay(first, s.calls)
  {
    InvAlways(codec, first, original, Opened(first, temporary, original), steps);
  }

  /** Once a rename succeeds the file holds every call so far, including those whose write failed. */
  lemma SuccessSavesEverything(codec: Codec, first: Positions, temporary: Option<Content>, original: Option<Content>,
                               steps: seq<Step>)
    requires Legal(codec, Opened(first, temporary, original), steps)
    requires After(codec, Opened(first, temporary, original), steps).stage.Written?
    ensures var s := After(codec, Opened(first, temporary, original), steps);
            var t := Apply(codec, s, RenameDone);
            t.stage.Idle? && t.destination == codec.serialize(Replay(first, t.calls)) && t.destination.Some?
  {
    InvAlways(codec, first, original, Opened(first, temporary, original), steps);
  }

  /** What `load` makes of the destination file; `None` is a parse error. */
  function Loaded(codec: Codec, destination: Option<Content>): Option<Positions> {
    if destination.None? then Some(map[]) else codec.deserialize(destination.value)
  }

  /** Restarting after a crash loads the original positions or those after some prefix of the calls. */
  lemma RestartLoadsAPrefix(codec: Codec, original: Option<Content>, temporary: Option<Content>, steps: seq<Step>)
    requires codec.Faithful() && Loaded(codec, original).Some?
    requires Legal(codec, Opened(Loaded(codec, original).value, temporary, original), steps)
    ensures var first := Loaded(codec, original).value;
            var s := After(codec, Opened(first, temporary, original), steps);
            exists k: nat :: k <= |s.calls| && Loaded(codec, s.destination) == Some(Replay(first, s.calls[..k]))
  {
    var first := Loaded(codec, original).value;
    var s := After(codec, Opened(first, temporary, original), steps);
    CrashConsistent(codec, first, temporary, original, steps);
    if s.destination == original {
      assert s.calls[..0] == [];
      assert Loaded(codec, s.destination) == Some(Replay(first, s.calls[..0]));
    } else {
      var k: nat :| PrefixPrinted(codec, first, s.calls, s.destination.value, k);
      assert Loaded(codec, s.destination) == Some(Replay(first, s.calls[..k]));
    }
  }

  /** From the very first start, without a file: every restart loads the positions after some prefix of the calls. */
  lemma FirstStartLoadsAPrefix(codec: Codec, temporary: Option<Content>, steps: seq<Step>)
    requires codec.Faithful() && Legal(codec, Opened(map[], temporary, None), steps)
    ensures var s := After(codec, Opened(map[], temporary, None), steps);
            exists k: nat :: k <= |s.calls| && Loaded(codec, s.destination) == Some(Replay(map[], s.calls[..k]))
  {
    RestartLoadsAPrefix(codec, None, temporary, steps);
  }

  // --- The store -----------------------------------------------------------------------------

  datatype BookmarkError = Serialize | Write

  /** What the file system does to one call. */
  datatype Fault = NoFault | TornWrite(torn: Content) | FailedRename

  /** The steps one call takes. */
  function StepsOf(codec: Codec, positions: Positions, call: Call, fault: Fault): seq<Step> {
    if codec.serialize(Updated(positions, call)).None? then [Begin(call)]
    else
      match fault
      case NoFault => [Begin(call), WriteDone, RenameDone]
      case TornWrite(torn) => [Begin(call), WriteSome(torn), WriteFails]
      case FailedRename => [Begin(call), WriteDone, RenameFails]
  }

  class BookmarkStore {
    const codec: Codec
    var positions: Positions
    var temporary: Option<Content>
    var destination: Option<Content>
    ghost var calls: seq<Call>

    ghost function Value(): Store
      reads this
    {
      Store(positions, temporary, destination, Idle, calls)
    }

    constructor (codec: Codec, positions: Positions, temporary: Option<Content>, destination: Option<Content>)
      ensures this.codec == codec && Value() == Opened(positions, temporary, destination)
    {
      this.codec := codec;
      this.positions := positions;
      this.temporary := temporary;
      this.destination := destination;
      calls := [];
    }

    /** `set`, under a fault of the file system or none. */
    method Set(objectId: string, position: u64, fault: Fault) returns (r: Result<(), BookmarkError>)
      modifies this
      ensures var steps := StepsOf(codec, old(positions), Call(objectId, position), fault);
              Legal(codec, old(Value()), steps) && Value() == After(codec, old(Value()), steps)
      ensures r.Ok? <==> codec.serialize(positions).Some? && fault.NoFault?
      ensures r.Ok? ==> destination == codec.serialize(positions)
      ensures r.Err? ==> destination == old(destination)
    {
      ghost var start := Value();
      ghost var call := Call(objectId, position);
      if position == 0 {
        positions := map k | k in positions && k != objectId :: positions[k];
      } else {
        positions := positions[objectId := position];
      }
      calls := calls + [call];
      var serialized := codec.serialize(positions);
      if serialized.None? {
        LegalOne(codec, start, Begin(call));
        return Err(Serialize);
      }
      ghost var begun := Apply(codec, start, Begin(call));
      match fault {
        case TornWrite(torn) =>
          temporary := Some(torn);
          LegalThree(codec, start, Begin(call), WriteSome(torn), WriteFails);
          return Err(Write);
        case FailedRename =>
          temporary := Some(serialized.value);
          LegalThree(codec, start, Begin(call), WriteDone, RenameFails);
          return Err(Write);
        case NoFault =>
          temporary := Some(serialized.value);
          destination := temporary;
          temporary := None;
          LegalThree(codec, start, Begin(call), WriteDone, RenameDone);
          return Ok(());
      }
    }
  }

  lemma LegalOne(codec: Codec, s: Store, a: Step)
    requires Enabled(s, a)
    ensures Legal(codec, s, [a]) && After(codec, s, [a]) == Apply(codec, s, a)
  {
    assert [a][1..] == [];
    assert Legal(codec, Apply(codec, s, a), []);
  }

  lemma LegalThree(codec: Codec, s: Store, a: Step, b: Step, c: Step)
    requires Enabled(s, a) && Enabled(Apply(codec, s, a), b) && Enabled(Apply(codec, Apply(codec, s, a), b), c)
    ensures Legal(codec, s, [a, b, c])
    ensures After(codec, s, [a, b, c]) == Apply(codec, Apply(codec, Apply(codec, s, a), b), c)
  {
    var t := Apply(codec, s, a);
    var u := Apply(codec, t, b);
    hide Apply, Enabled;
    LegalOne(codec, u, c);
    assert [b, c][1..] == [c] && [a, b, c][1..] == [b, c];
    assert Legal(codec, t, [b, c]) && After(codec, t, [b, c]) == Apply(codec, u, c);
  }
}
