/**
 Whole runs of an editing session: any buffers, saved in any order, settled by their dispatchers whenever
 these get to it (Source/Editor/BufferSave.cpp:118-209; Source/UI/AsyncFileSaver.cpp:54-89;
 Source/Editor/Remote/RemoteBuffer.cpp:146-157, 204-219).
 */
module SaveRuns {
  import opened Common
  import opened ExitStatus
  import opened SaveProtocol

  /** What may happen to one buffer. `Settle` is its dispatcher's: why the write failed, if it did. */
  datatype Action =
    | Save(dispatch: Dispatch, w: World)
    | Settle(failure: Option<string>)
    | SetLoading(loading: bool)

  /** What may happen in a session: something to one buffer, or the exit takes the queued lines. */
  datatype Op = On(which: nat, action: Action) | TakeReports

  /** The part of a buffer that saves read and write. */
  datatype Shelf = Shelf(name: string, location: Location, loading: bool, saving: bool, log: seq<PlanEvent>)

  /** All buffers, and the exit state: every outcome recorded, every line queued, and those of them taken. */
  datatype Desk = Desk(shelves: seq<Shelf>, outcomes: seq<Outcome>, lines: seq<string>, drained: seq<string>)

  // ---- settling ----

  /**
   Whether the dispatcher takes the write for a failed one: the local saver keeps the exception's words in a
   plain string and reads the empty one as success, the remote saver keeps an optional.
   */
  predicate SettlesAsFailed(location: Location, failure: Option<string>) {
    failure.Some? && (location.RemoteFile? || failure.value != "")
  }

  function SettledEvent(location: Location, failure: Option<string>): PlanEvent {
    if SettlesAsFailed(location, failure) then Abandoned else Finished
  }

  /** The name the exit status files a buffer's saves under. */
  function Key(location: Location): string {
    match location
    case Unnamed => ""
    case LocalFile(path) => path
    case RemoteFile(address) => address
  }

  function SettledOutcome(location: Location, failure: Option<string>): Outcome {
    if SettlesAsFailed(location, failure) then Failed(Key(location)) else Succeeded(Key(location))
  }

  // ---- what a run does, as a value ----

  function EventsFor(b: Shelf, action: Action): seq<PlanEvent> {
    match action
    case Save(dispatch, w) => EventsOf(b.location, dispatch, RefusedHere(b.location, b.loading, b.saving, w), w)
    case Settle(failure) => if b.saving then [SettledEvent(b.location, failure)] else []
    case SetLoading(_) => []
  }

  function OutcomesFor(b: Shelf, action: Action): seq<Outcome> {
    match action
    case Save(dispatch, w) =>
      if WritesHere(b.location, dispatch, RefusedHere(b.location, b.loading, b.saving, w), w)
      then OutcomeOf(b.location.path, w) else []
    case Settle(failure) => if b.saving then [SettledOutcome(b.location, failure)] else []
    case SetLoading(_) => []
  }

  function LinesFor(b: Shelf, action: Action): seq<string> {
    match action
    case Save(dispatch, w) =>
      if WritesHere(b.location, dispatch, RefusedHere(b.location, b.loading, b.saving, w), w)
      then LinesOf(b.name, w) else []
    case Settle(failure) =>
      if b.saving && SettlesAsFailed(b.location, failure) then [FailureLine(b.name, failure.value)] else []
    case SetLoading(_) => []
  }

  function StepShelf(b: Shelf, action: Action): Shelf {
    var more := EventsFor(b, action);
    b.(log := b.log + more,
       saving := if more == [] then b.saving else more[|more| - 1] == HandedOver,
       loading := if action.SetLoading? then action.loading else b.loading)
  }

  function StepOn(d: Desk, which: nat, action: Action): Desk
    requires which < |d.shelves|
  {
    var b := d.shelves[which];
    d.(shelves := d.shelves[which := StepShelf(b, action)],
       outcomes := d.outcomes + OutcomesFor(b, action),
       lines := d.lines + LinesFor(b, action))
  }

  function Step(d: Desk, op: Op): Desk {
    match op
    case On(which, action) => if which < |d.shelves| then StepOn(d, which, action) else d
    case TakeReports => d.(drained := d.lines)
  }

  function Run(d: Desk, ops: seq<Op>): Desk {
    if ops == [] then d else Step(Run(d, ops[..|ops| - 1]), ops[|ops| - 1])
  }

  // ---- what every run keeps ----

  /** Between two actions a plan is either settled or with the dispatcher that accepted it. */
  predicate Shelved(b: Shelf) {
    Replay(b.log) == Some(if b.saving then WithDispatcher else Idle)
  }

  lemma StepKeepsShelved(b: Shelf, action: Action)
    requires Shelved(b)
    ensures Shelved(StepShelf(b, action))
  {
    var more := EventsFor(b, action);
    match action
    case Save(dispatch, w) =>
      SaveKeepsProtocol(b.log, b.location, dispatch, RefusedHere(b.location, b.loading, b.saving, w), w);
      assert more == [] ==> b.log + more == b.log;
    case Settle(failure) =>
      if b.saving {
        assert (b.log + more)[..|b.log|] == b.log;
      } else {
        assert b.log + more == b.log;
      }
    case SetLoading(_) =>
      assert b.log + more == b.log;
  }

  ghost predicate AllShelved(shelves: seq<Shelf>) {
    forall i :: 0 <= i < |shelves| ==> Shelved(shelves[i])
  }

  /** Safety over runs: from fresh buffers no order of actions, answers and failures breaks the protocol. */
  lemma {:induction false} RunsKeepTheProtocol(d: Desk, ops: seq<Op>)
    requires AllShelved(d.shelves)
    ensures |Run(d, ops).shelves| == |d.shelves| && AllShelved(Run(d, ops).shelves)
  {
    if ops != [] {
      RunsKeepTheProtocol(d, ops[..|ops| - 1]);
      var before, op := Run(d, ops[..|ops| - 1]), ops[|ops| - 1];
      if op.On? && op.which < |before.shelves| {
        StepKeepsShelved(before.shelves[op.which], op.action);
      }
    }
  }

  /** How often a save filed under `key` went well, as the buffers count it. */
  function FinishesUnder(shelves: seq<Shelf>, key: string): nat {
    if shelves == [] then 0
    else
      var b := shelves[|shelves| - 1];
      FinishesUnder(shelves[..|shelves| - 1], key) + if Key(b.location) == key then Count(b.log, Finished) else 0
  }

  /** How often a save filed under `key` went well, as the exit status heard it. */
  function Successes(outcomes: seq<Outcome>, key: string): nat {
    if outcomes == [] then 0
    else Successes(outcomes[..|outcomes| - 1], key) + if outcomes[|outcomes| - 1] == Succeeded(key) then 1 else 0
  }

  /** Conservation: over every run, each plan finished is one success recorded under its file, and conversely. */
  lemma {:induction false} EverySuccessIsAFinishedPlan(d: Desk, ops: seq<Op>, key: string)
    ensures FinishesUnder(Run(d, ops).shelves, key) + Successes(d.outcomes, key)
         == FinishesUnder(d.shelves, key) + Successes(Run(d, ops).outcomes, key)
  {
    if ops != [] {
      var before, op := Run(d, ops[..|ops| - 1]), ops[|ops| - 1];
      EverySuccessIsAFinishedPlan(d, ops[..|ops| - 1], key);
      if op.On? && op.which < |before.shelves| {
        var b := before.shelves[op.which];
        StepCounts(b, op.action, key);
        ReplacingCounts(before.shelves, op.which, StepShelf(b, op.action), key);
        SuccessesAppend(before.outcomes, OutcomesFor(b, op.action), key);
      }
    }
  }

  lemma StepCounts(b: Shelf, action: Action, key: string)
    ensures Count(StepShelf(b, action).log, Finished) ==
            Count(b.log, Finished) + Successes(OutcomesFor(b, action), Key(b.location))
    ensures key != Key(b.location) ==> Successes(OutcomesFor(b, action), key) == 0
  {
    CountAppends(b.log, EventsFor(b, action), Finished);
    match action
    case Save(dispatch, w) =>
      FinishesCounted(b.log, b.location, dispatch, RefusedHere(b.location, b.loading, b.saving, w), w);
    case _ =>
  }

  lemma {:induction false} ReplacingCounts(shelves: seq<Shelf>, at: nat, b: Shelf, key: string)
    requires at < |shelves| && b.location == shelves[at].location
    ensures Key(b.location) != key ==> FinishesUnder(shelves[at := b], key) == FinishesUnder(shelves, key)
    ensures Key(b.location) == key ==>
      FinishesUnder(shelves[at := b], key) + Count(shelves[at].log, Finished) ==
        FinishesUnder(shelves, key) + Count(b.log, Finished)
  {
    var n := |shelves| - 1;
    if at < n {
      ReplacingCounts(shelves[..n], at, b, key);
      assert shelves[at := b][..n] == shelves[..n][at := b];
    } else {
      assert shelves[at := b][..n] == shelves[..n];
    }
  }

  lemma {:induction false} SuccessesAppend(outcomes: seq<Outcome>, more: seq<Outcome>, key: string)
    ensures Successes(outcomes + more, key) == Successes(outcomes, key) + Successes(more, key)
  {
    if more == [] {
      assert outcomes + more == outcomes;
    } else {
      SuccessesAppend(outcomes, more[..|more| - 1], key);
      assert (outcomes + more)[..|outcomes + more| - 1] == outcomes + more[..|more| - 1];
    }
  }

  // ---- what is known of every write ----

  /** One actual write of a buffer's file: why it failed, if it did, and whether a dispatcher ran it. */
  datatype Write = Write(name: string, location: Location, dispatched: bool, failure: Option<string>)

  function WritesFor(b: Shelf, action: Action): seq<Write> {
    match action
    case Save(dispatch, w) =>
      if WritesHere(b.location, dispatch, RefusedHere(b.location, b.loading, b.saving, w), w)
      then [Write(b.name, b.location, false, w.writeFails)] else []
    case Settle(failure) => if b.saving then [Write(b.name, b.location, true, failure)] else []
    case SetLoading(_) => []
  }

  function WritesAt(d: Desk, op: Op): seq<Write> {
    if op.On? && op.which < |d.shelves| then WritesFor(d.shelves[op.which], op.action) else []
  }

  /** Every write of a run, in the order in which they ended. */
  function WritesIn(d: Desk, ops: seq<Op>): seq<Write> {
    if ops == [] then []
    else
      var front := ops[..|ops| - 1];
      WritesIn(d, front) + WritesAt(Run(d, front), ops[|ops| - 1])
  }

  function LastWrite(writes: seq<Write>, key: string): Option<Write> {
    if writes == [] then None
    else
      var last := writes[|writes| - 1];
      if Key(last.location) == key then Some(last) else LastWrite(writes[..|writes| - 1], key)
  }

  /** The local saver takes a failure without a word for success. */
  predicate Silent(write: Write) {
    write.dispatched && !write.location.RemoteFile? && write.failure == Some("")
  }

  predicate NoticedFailure(write: Write) {
    write.failure.Some? && !Silent(write)
  }

  predicate LastFailed(writes: seq<Write>, key: string) {
    var last := LastWrite(writes, key);
    last.Some? && NoticedFailure(last.value)
  }

  /** No action writes twice. */
  lemma StepWrites(b: Shelf, action: Action)
    ensures |WritesFor(b, action)| <= 1 && |OutcomesFor(b, action)| == |WritesFor(b, action)|
    ensures WritesFor(b, action) != [] ==>
      var write := WritesFor(b, action)[0];
      && OutcomesFor(b, action)[0] ==
        (if NoticedFailure(write) then Failed(Key(write.location)) else Succeeded(Key(write.location)))
      && LinesFor(b, action) == if NoticedFailure(write) then [FailureLine(write.name, write.failure.value)] else []
    ensures WritesFor(b, action) == [] ==> LinesFor(b, action) == []
  {
  }

  /**
   Over every run from a fresh start: a file counts as failed if and only if its latest write, by whichever
   buffer and whether here or by a dispatcher, failed, and that was no local dispatcher's failure without a word.
   */
  lemma {:induction false} LatestWriteIsKnown(d: Desk, ops: seq<Op>, key: string)
    requires d.outcomes == []
    ensures LatestFailed(Run(d, ops).outcomes, key) <==> LastFailed(WritesIn(d, ops), key)
  {
    if ops != [] {
      LatestWriteIsKnown(d, ops[..|ops| - 1], key);
      StepIsKnown(Run(d, ops[..|ops| - 1]), ops[|ops| - 1], WritesIn(d, ops[..|ops| - 1]), key);
    }
  }

  lemma StepIsKnown(d: Desk, op: Op, writes: seq<Write>, key: string)
    requires LatestFailed(d.outcomes, key) <==> LastFailed(writes, key)
    ensures LatestFailed(Step(d, op).outcomes, key) <==> LastFailed(writes + WritesAt(d, op), key)
  {
    var more := WritesAt(d, op);
    if more == [] {
      assert writes + more == writes;
      NothingWritten(d, op);
    } else {
      var b := d.shelves[op.which];
      StepWrites(b, op.action);
      var outcomes := OutcomesFor(b, op.action);
      assert more == [more[0]] && outcomes == [outcomes[0]];
      WriteIsKnown(d.outcomes, writes, more[0], outcomes[0], key);
    }
  }

  lemma WriteIsKnown(outcomes: seq<Outcome>, writes: seq<Write>, write: Write, outcome: Outcome, key: string)
    requires LatestFailed(outcomes, key) <==> LastFailed(writes, key)
    requires outcome == if NoticedFailure(write) then Failed(Key(write.location)) else Succeeded(Key(write.location))
    ensures LatestFailed(outcomes + [outcome], key) <==> LastFailed(writes + [write], key)
  {
    LatestAfter(outcomes, outcome);
    assert (writes + [write])[..|writes|] == writes;
  }

  lemma NothingWritten(d: Desk, op: Op)
    requires WritesAt(d, op) == []
    ensures Step(d, op).outcomes == d.outcomes && Step(d, op).lines == d.lines
  {
    if op.On? && op.which < |d.shelves| {
      StepWrites(d.shelves[op.which], op.action);
      assert d.outcomes + [] == d.outcomes && d.lines + [] == d.lines;
    }
  }

  function FailureLines(writes: seq<Write>): seq<string> {
    if writes == [] then []
    else
      var last := writes[|writes| - 1];
      FailureLines(writes[..|writes| - 1])
        + if NoticedFailure(last) then [FailureLine(last.name, last.failure.value)] else []
  }

  /** Over every run: the lines queued are one for each failed write, in order, and those taken come first. */
  lemma {:induction false} EveryFailureIsOneLine(d: Desk, ops: seq<Op>)
    requires d.lines == [] && d.drained == []
    ensures Run(d, ops).lines == FailureLines(WritesIn(d, ops))
    ensures Run(d, ops).drained <= Run(d, ops).lines
  {
    if ops != [] {
      var before, op := Run(d, ops[..|ops| - 1]), ops[|ops| - 1];
      EveryFailureIsOneLine(d, ops[..|ops| - 1]);
      var writes, more := WritesIn(d, ops[..|ops| - 1]), WritesAt(before, op);
      if more == [] {
        assert writes + more == writes;
        NothingWritten(before, op);
      } else {
        StepWrites(before.shelves[op.which], op.action);
        assert more == [more[0]] && (writes + more)[..|writes|] == writes;
      }
    }
  }

  /** So the exit, which takes the lines last of all, shows every failed write. */
  lemma ExitShowsEveryFailure(d: Desk, ops: seq<Op>)
    requires d.lines == [] && d.drained == []
    ensures Run(d, ops + [TakeReports]).drained == FailureLines(WritesIn(d, ops))
  {
    EveryFailureIsOneLine(d, ops);
    assert (ops + [TakeReports])[..|ops|] == ops;
  }

  const ROOMY := World(true, true, true, Some(true), None, None, None)

  const HERE := On(0, Save(ForceSynchronous, ROOMY.(writeFails := Some("disk full"))))
  const SENT := On(0, Save(Automatic, ROOMY))
  const SETTLED := On(0, Settle(Some("")))

  function Fresh(path: string): Desk {
    Desk([Shelf("", LocalFile(path), false, false, [])], [], [], [])
  }

  predicate OneBuffer(d: Desk, path: string, saving: bool) {
    |d.shelves| == 1 && d.shelves[0] == Shelf("", LocalFile(path), false, saving, d.shelves[0].log)
  }

  /** A write that fails here is known; the next, which its dispatcher sees fail without a word, clears it. */
  lemma SilentFailureIsForgotten(path: string)
    ensures LatestFailed(Run(Fresh(path), [HERE]).outcomes, path)
    ensures LastWrite(WritesIn(Fresh(path), [HERE, SENT, SETTLED]), path) ==
      Some(Write("", LocalFile(path), true, Some("")))
    ensures !LatestFailed(Run(Fresh(path), [HERE, SENT, SETTLED]).outcomes, path)
  {
    var d := Fresh(path);
    AfterHere(path);
    AfterSent(path);
    assert [HERE, SENT, SETTLED][..2] == [HERE, SENT];
    var writes := WritesIn(d, [HERE, SENT]);
    assert WritesIn(d, [HERE, SENT, SETTLED]) == writes + [Write("", LocalFile(path), true, Some(""))];
    LatestWriteIsKnown(d, [HERE, SENT, SETTLED], path);
  }

  lemma AfterHere(path: string)
    ensures var after := Run(Fresh(path), [HERE]);
      after.outcomes == [Failed(path)] && OneBuffer(after, path, false)
  {
    assert [HERE][..0] == [];
  }

  lemma AfterSent(path: string)
    ensures var after := Run(Fresh(path), [HERE, SENT]);
      OneBuffer(after, path, true)
  {
    AfterHere(path);
    assert [HERE, SENT][..1] == [HERE];
  }

  // ---- the program ----

  /** The dispatcher that accepted the plan settles it and records the outcome. */
  method SettleSave(buffer: Buffer, app: Application, failure: Option<string>)
    requires buffer.Valid() && app.Valid() && Replay(buffer.log) == Some(WithDispatcher)
    modifies buffer, app
    ensures buffer.Valid() && app.Valid()
    ensures buffer.log == old(buffer.log) + [SettledEvent(buffer.location, failure)]
    ensures app.outcomes == old(app.outcomes) + [SettledOutcome(buffer.location, failure)]
    ensures app.reported == old(app.reported)
      + if SettlesAsFailed(buffer.location, failure) then [FailureLine(buffer.name, failure.value)] else []
    ensures !buffer.saving && buffer.loading == old(buffer.loading) && app.drained == old(app.drained)
  {
    var key := Key(buffer.location);
    assert (buffer.log + [SettledEvent(buffer.location, failure)])[..|buffer.log|] == buffer.log;
    if failure.Some? && (buffer.location.RemoteFile? || failure.value != "") {
      buffer.AbandonSave();
      app.NoteSaveFailed(key, buffer.name, failure.value);
    } else {
      app.NoteSaveSucceeded(key);
      buffer.FinishSave();
    }
  }

  ghost predicate Shows(buffer: Buffer, b: Shelf)
    reads buffer
  {
    b == Shelf(buffer.name, buffer.location, buffer.loading, buffer.saving, buffer.log)
  }

  ghost predicate ShowsAll(buffers: seq<Buffer>, d: Desk)
    reads set i | 0 <= i < |buffers| :: buffers[i]
  {
    |d.shelves| == |buffers| && forall i :: 0 <= i < |buffers| ==> Shows(buffers[i], d.shelves[i]) && buffers[i].Valid()
  }

  /** The exit state is what the run says: its latch, every line queued, and the lines taken, the rest being queued. */
  ghost predicate ExitShows(app: Application, d: Desk)
    reads app
  {
    app.Valid() && app.outcomes == d.outcomes && app.reported == d.lines && app.drained == d.drained
  }

  /** One action on one buffer does to it and to the exit state what `StepShelf` and its companions say. */
  method Act(buffer: Buffer, app: Application, action: Action, ghost b: Shelf)
    requires buffer.Valid() && app.Valid() && Shows(buffer, b) && Shelved(b)
    modifies buffer, app
    ensures buffer.Valid() && app.Valid() && Shows(buffer, StepShelf(b, action))
    ensures app.outcomes == old(app.outcomes) + OutcomesFor(b, action)
    ensures app.reported == old(app.reported) + LinesFor(b, action) && app.drained == old(app.drained)
  {
    StepKeepsShelved(b, action);
    match action
    case Save(dispatch, w) =>
      var _ := WriteBufferToDisk(buffer, app, dispatch, w);
    case Settle(failure) =>
      if buffer.saving {
        SettleSave(buffer, app, failure);
      }
    case SetLoading(loading) =>
      buffer.loading := loading;
  }

  /** A session: the real buffers and the real exit state follow the run, step by step. */
  method Session(buffers: seq<Buffer>, app: Application, ops: seq<Op>, ghost d: Desk)
    requires forall i, j :: 0 <= i < j < |buffers| ==> buffers[i] != buffers[j]
    requires ShowsAll(buffers, d) && AllShelved(d.shelves) && ExitShows(app, d)
    modifies app, set i | 0 <= i < |buffers| :: buffers[i]
    ensures ShowsAll(buffers, Run(d, ops)) && ExitShows(app, Run(d, ops))
  {
    var k := 0;
    assert ops[..0] == [];
    while k < |ops|
      invariant 0 <= k <= |ops|
      invariant ShowsAll(buffers, Run(d, ops[..k])) && ExitShows(app, Run(d, ops[..k]))
    {
      ghost var now := Run(d, ops[..k]);
      assert ops[..k + 1][..k] == ops[..k];
      RunsKeepTheProtocol(d, ops[..k]);
      if ops[k].TakeReports? {
        var _ := app.TakeExitReports();
      } else if ops[k].which < |buffers| {
        Act(buffers[ops[k].which], app, ops[k].action, now.shelves[ops[k].which]);
      }
      k := k + 1;
    }
    assert ops[..k] == ops;
  }
}
