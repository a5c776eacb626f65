/**
 Saving a buffer: the plan is begun, and then finished, abandoned, or handed to a dispatcher that settles
 it later (Source/Editor/BufferSave.cpp:45-77, 118-209; Source/Text/Buffer.cpp:310-427). What the world
 answers -- whether a dispatcher is installed and accepts, whether a write fails -- comes in as `World`.
 */
module SaveProtocol {
  import opened Common
  import opened ExitStatus

  // ---- the life of a plan ----

  datatype PlanEvent = Begun | HandedOver | Finished | Abandoned

  datatype PlanState = Idle | Held | WithDispatcher

  /** The only steps a buffer's plan may take. */
  function After(state: PlanState, event: PlanEvent): Option<PlanState> {
    match (state, event)
    case (Idle, Begun) => Some(Held)
    case (Held, HandedOver) => Some(WithDispatcher)
    case (Held, Finished) => Some(Idle)
    case (Held, Abandoned) => Some(Idle)
    case (WithDispatcher, Finished) => Some(Idle)
    case (WithDispatcher, Abandoned) => Some(Idle)
    case _ => None
  }

  /** The state a log of events leads to, if every step of it is allowed. */
  function Replay(log: seq<PlanEvent>): Option<PlanState> {
    if log == [] then Some(Idle)
    else
      match Replay(log[..|log| - 1])
      case None => None
      case Some(state) => After(state, log[|log| - 1])
  }

  function Count(log: seq<PlanEvent>, event: PlanEvent): nat {
    if log == [] then 0 else Count(log[..|log| - 1], event) + if log[|log| - 1] == event then 1 else 0
  }

  /** In an allowed log every plan begun is settled once, except for at most one still outstanding. */
  lemma {:induction false} PlansAreSettledOnce(log: seq<PlanEvent>)
    requires Replay(log).Some?
    ensures Count(log, Begun) == Count(log, Finished) + Count(log, Abandoned)
      + if Replay(log).value == Idle then 0 else 1
    ensures Count(log, HandedOver) <= Count(log, Begun)
    ensures Replay(log).value == Held ==> Count(log, HandedOver) < Count(log, Begun)
  {
    if log != [] {
      PlansAreSettledOnce(log[..|log| - 1]);
    }
  }

  /** Between two plans of one buffer, the first is settled. */
  lemma {:induction false} NeverTwoOutstanding(log: seq<PlanEvent>, i: nat, j: nat)
    requires Replay(log).Some? && i < j < |log| && log[i] == Begun && log[j] == Begun
    ensures exists k :: i < k < j && (log[k] == Finished || log[k] == Abandoned)
  {
    var front := log[..|log| - 1];
    if j < |log| - 1 {
      NeverTwoOutstanding(front, i, j);
      var k :| i < k < j && (front[k] == Finished || front[k] == Abandoned);
      assert log[k] == front[k];
    } else {
      IdleWasSettled(front, i);
      var k :| i < k < |front| && (front[k] == Finished || front[k] == Abandoned);
      assert log[k] == front[k];
    }
  }

  lemma {:induction false} IdleWasSettled(log: seq<PlanEvent>, i: nat)
    requires Replay(log) == Some(Idle) && i < |log| && log[i] == Begun
    ensures exists k :: i < k < |log| && (log[k] == Finished || log[k] == Abandoned)
  {
    var last := log[|log| - 1];
    assert last == Finished || last == Abandoned;
    assert i < |log| - 1;
  }

  lemma {:induction false} ReplayAppends(log: seq<PlanEvent>, more: seq<PlanEvent>)
    requires Replay(log).Some?
    ensures Replay(log + more) == ReplayFrom(Replay(log).value, more)
  {
    if more == [] {
      assert log + more == log;
    } else {
      ReplayAppends(log, more[..|more| - 1]);
      assert (log + more)[..|log + more| - 1] == log + more[..|more| - 1];
    }
  }

  function ReplayFrom(state: PlanState, log: seq<PlanEvent>): Option<PlanState> {
    if log == [] then Some(state)
    else
      match ReplayFrom(state, log[..|log| - 1])
      case None => None
      case Some(s) => After(s, log[|log| - 1])
  }

  // ---- the buffer ----

  datatype Location = Unnamed | LocalFile(path: string) | RemoteFile(address: string)

  datatype Dispatch = ForceSynchronous | Automatic

  datatype SaveError =
    | NoPath | StillLoading | AlreadySaving | NoRoom
    | RemoteNeedsEventLoop | NoRemoteHosts | RemoteRefused
    | CannotEncode(reason: string) | WriteFailed(reason: string)

  datatype SaveResult = Returned | Threw(error: SaveError)

  /**
   The answers one call gets: whether there is room to begin a plan, the first time and after a refusal;
   whether the buffer is large; for each dispatcher, whether it is installed and then whether it takes the
   save; why encoding or writing fails ("" for an exception that says nothing).
   */
  datatype World = World(
    room: bool,
    roomAgain: bool,
    large: bool,
    localDispatcher: Option<bool>,
    remoteDispatcher: Option<bool>,
    encodeFails: Option<string>,
    writeFails: Option<string>)

  /** Why no plan is begun, if none is. */
  function Refusal(loading: bool, saving: bool, room: bool): Option<SaveError> {
    if loading then Some(StillLoading) else if saving then Some(AlreadySaving) else if !room then Some(NoRoom) else None
  }

  class Buffer {
    const name: string
    const location: Location
    var loading: bool
    var saving: bool
    var progress: bool
    var saveGeneration: nat
    ghost var log: seq<PlanEvent>

    /** The fields agree with a log in which every step was allowed. */
    ghost predicate Valid()
      reads this
    {
      && Replay(log).Some?
      && (saving <==> Replay(log).value != Idle)
      && (progress ==> saving)
      && saveGeneration == Count(log, Finished)
    }

    /** A local file's plan can begin. */
    predicate Ready(w: World)
      reads this
    {
      location.LocalFile? && !loading && !saving && w.room
    }

    constructor (name: string, location: Location)
      ensures Valid() && log == [] && !loading && this.name == name && this.location == location
    {
      this.name, this.location := name, location;
      loading, saving, progress, saveGeneration := false, false, false, 0;
      log := [];
    }

    /** Captures a plan, or says why not. */
    method BeginSave(room: bool) returns (refused: Option<SaveError>)
      modifies this
      ensures refused == Refusal(old(loading), old(saving), room)
      ensures refused.Some? ==> log == old(log) && saving == old(saving)
      ensures refused.None? ==> log == old(log) + [Begun] && saving
      ensures loading == old(loading) && progress == old(progress) && saveGeneration == old(saveGeneration)
    {
      if loading {
        return Some(StillLoading);
      }
      if saving {
        return Some(AlreadySaving);
      }
      if !room {
        return Some(NoRoom);
      }
      saving := true;
      log := log + [Begun];
      return None;
    }

    method AbandonSave()
      modifies this
      ensures log == old(log) + [Abandoned] && !saving && !progress
      ensures loading == old(loading) && saveGeneration == old(saveGeneration)
    {
      saving, progress := false, false;
      log := log + [Abandoned];
    }

    method FinishSave()
      modifies this
      ensures log == old(log) + [Finished] && !saving && !progress
      ensures loading == old(loading) && saveGeneration == old(saveGeneration) + 1
    {
      saving, progress, saveGeneration := false, false, saveGeneration + 1;
      log := log + [Finished];
    }

    method SetSaveProgress()
      modifies `progress
      ensures progress
    {
      progress := true;
    }
  }

  // ---- what one save does to the plan ----

  /** The remote path hands its plan over or abandons it; nothing is written here. */
  predicate RemoteTaken(dispatch: Dispatch, w: World) {
    && dispatch == Automatic && w.remoteDispatcher.Some? && w.remoteDispatcher.value
    && (w.large || w.encodeFails.None?)
  }

  predicate Offered(dispatch: Dispatch, w: World) {
    dispatch == Automatic && w.large && w.localDispatcher.Some?
  }

  /** The write runs here, its plan finished or abandoned with it. */
  function Written(w: World): seq<PlanEvent> {
    [Begun, if w.writeFails.None? then Finished else Abandoned]
  }

  function EventsOf(location: Location, dispatch: Dispatch, refused: bool, w: World): seq<PlanEvent> {
    if location.Unnamed? || refused then []
    else if location.RemoteFile? then [Begun, if RemoteTaken(dispatch, w) then HandedOver else Abandoned]
    else if !Offered(dispatch, w) then Written(w)
    else if w.localDispatcher.value then [Begun, HandedOver]
    else [Begun, Abandoned] + if w.roomAgain then Written(w) else []
  }

  /** Whether the file is written by this very call, which is what the exit status hears about. */
  predicate WritesHere(location: Location, dispatch: Dispatch, refused: bool, w: World) {
    location.LocalFile? && !refused && (Offered(dispatch, w) ==> !w.localDispatcher.value && w.roomAgain)
  }

  /** From idle, one save keeps to the protocol, whatever the world answers. */
  lemma SaveKeepsProtocol(log: seq<PlanEvent>, location: Location, dispatch: Dispatch, refused: bool, w: World)
    requires Replay(log).Some? && (Replay(log).value != Idle ==> refused)
    ensures var more := EventsOf(location, dispatch, refused, w);
      && Replay(log + more).Some?
      && (more == [] ==> Replay(log + more) == Replay(log))
      && (more != [] ==> Replay(log + more).value == (if more[|more| - 1] == HandedOver then WithDispatcher else Idle))
  {
    var more := EventsOf(location, dispatch, refused, w);
    EventsShape(location, dispatch, refused, w);
    if more == [] {
      assert log + more == log;
    } else {
      ReplayAppends(log, more);
      ShapesReplay(more);
    }
  }

  /** Nothing; or one plan; or one refused and abandoned, and then another. */
  predicate Shape(more: seq<PlanEvent>) {
    || more == []
    || (|more| == 2 && more[0] == Begun && more[1] != Begun)
    || (|more| == 4 && more[0] == Begun && more[1] == Abandoned && more[2] == Begun
      && (more[3] == Finished || more[3] == Abandoned))
  }

  lemma EventsShape(location: Location, dispatch: Dispatch, refused: bool, w: World)
    ensures Shape(EventsOf(location, dispatch, refused, w))
    ensures refused ==> EventsOf(location, dispatch, refused, w) == []
    ensures var more := EventsOf(location, dispatch, refused, w);
      (more != [] && more[|more| - 1] == Finished) <==> WritesHere(location, dispatch, refused, w) && w.writeFails.None?
  {
    assert ([Begun, Abandoned] + Written(w))[3] == Written(w)[1];
    assert [Begun, Abandoned] + [] == [Begun, Abandoned];
  }

  lemma ShapesReplay(more: seq<PlanEvent>)
    requires Shape(more) && more != []
    ensures ReplayFrom(Idle, more) == Some(if more[|more| - 1] == HandedOver then WithDispatcher else Idle)
  {
    if |more| == 2 {
      ReplayTwo(more[0], more[1]);
      assert more == [more[0], more[1]];
    } else {
      ReplayFour(more);
    }
  }

  lemma ReplayTwo(a: PlanEvent, b: PlanEvent)
    ensures a == Begun && b != Begun ==>
      ReplayFrom(Idle, [a, b]) == Some(if b == HandedOver then WithDispatcher else Idle)
  {
    assert [a, b][..1] == [a] && [a][..0] == [];
    if a == Begun {
      assert ReplayFrom(Idle, [a]) == Some(Held);
    }
  }

  lemma ReplayFour(more: seq<PlanEvent>)
    requires |more| == 4 && more[0] == Begun && more[1] == Abandoned && more[2] == Begun
    requires more[3] == Finished || more[3] == Abandoned
    ensures ReplayFrom(Idle, more) == Some(Idle)
  {
    ReplayTwo(Begun, Abandoned);
    assert more[..3][..2] == [Begun, Abandoned];
    assert more[..3] == [Begun, Abandoned] + [Begun];
    assert ReplayFrom(Idle, more[..3]) == Some(Held);
  }

  // ---- the program ----

  method WriteRemoteBuffer(buffer: Buffer, dispatch: Dispatch, w: World) returns (r: SaveResult)
    modifies buffer
    ensures buffer.log == old(buffer.log) + [if RemoteTaken(dispatch, w) then HandedOver else Abandoned]
    ensures r.Returned? <==> RemoteTaken(dispatch, w)
    ensures r.Returned? ==> buffer.saving == old(buffer.saving) && buffer.progress == old(buffer.progress)
    ensures r.Threw? ==> !buffer.saving && !buffer.progress
    ensures buffer.loading == old(buffer.loading) && buffer.saveGeneration == old(buffer.saveGeneration)
  {
    if dispatch == ForceSynchronous {
      buffer.AbandonSave();
      return Threw(RemoteNeedsEventLoop);
    }
    if w.remoteDispatcher.None? {
      buffer.AbandonSave();
      return Threw(NoRemoteHosts);
    }
    if !w.large && w.encodeFails.Some? {
      buffer.AbandonSave();
      return Threw(CannotEncode(w.encodeFails.value));
    }
    if !w.remoteDispatcher.value {
      buffer.AbandonSave();
      return Threw(RemoteRefused);
    }
    buffer.log := buffer.log + [HandedOver];
    return Returned;
  }

  /** The synchronous write of a begun plan. */
  method RunHere(buffer: Buffer, app: Application, path: string, w: World) returns (r: SaveResult)
    requires app.Valid()
    modifies buffer, app
    ensures app.Valid()
    ensures buffer.log == old(buffer.log) + [if w.writeFails.None? then Finished else Abandoned]
    ensures !buffer.saving && !buffer.progress && buffer.loading == old(buffer.loading)
    ensures buffer.saveGeneration == old(buffer.saveGeneration) + if w.writeFails.None? then 1 else 0
    ensures app.outcomes == old(app.outcomes) + OutcomeOf(path, w)
      && app.reported == old(app.reported) + LinesOf(buffer.name, w)
    ensures app.drained == old(app.drained)
    ensures r == if w.writeFails.None? then Returned else Threw(WriteFailed(w.writeFails.value))
  {
    if w.writeFails.Some? {
      buffer.AbandonSave();
      app.NoteSaveFailed(path, buffer.name, w.writeFails.value);
      return Threw(WriteFailed(w.writeFails.value));
    }
    buffer.FinishSave();
    app.NoteSaveSucceeded(path);
    return Returned;
  }

  /** What a write records of itself. */
  function OutcomeOf(path: string, w: World): seq<Outcome> {
    [if w.writeFails.None? then Succeeded(path) else Failed(path)]
  }

  function LinesOf(bufferName: string, w: World): seq<string> {
    if w.writeFails.None? then [] else [FailureLine(bufferName, w.writeFails.value)]
  }

  function RefusedHere(location: Location, loading: bool, saving: bool, w: World): bool {
    Refusal(loading, saving, location.RemoteFile? || w.room).Some?
  }

  /** The buffer's fields once `more` has happened to a plan that was outstanding or not. */
  ghost predicate FieldsAfter(buffer: Buffer, more: seq<PlanEvent>, wasSaving: bool, hadProgress: bool)
    reads buffer
  {
    if more == [] then buffer.saving == wasSaving && buffer.progress == hadProgress
    else buffer.saving == (more[|more| - 1] == HandedOver) && (buffer.progress ==> buffer.saving)
  }

  method WriteBufferToDisk(buffer: Buffer, app: Application, dispatch: Dispatch, w: World) returns (r: SaveResult)
    requires buffer.Valid() && app.Valid()
    modifies buffer, app
    ensures buffer.Valid() && app.Valid() && buffer.loading == old(buffer.loading)
    ensures buffer.log == old(buffer.log)
      + EventsOf(buffer.location, dispatch, RefusedHere(buffer.location, old(buffer.loading), old(buffer.saving), w), w)
    ensures
      if WritesHere(buffer.location, dispatch,
        RefusedHere(buffer.location, old(buffer.loading), old(buffer.saving), w), w) then
        && app.outcomes == old(app.outcomes) + OutcomeOf(buffer.location.path, w)
        && app.reported == old(app.reported) + LinesOf(buffer.name, w)
      else app.outcomes == old(app.outcomes) && app.reported == old(app.reported)
    ensures app.drained == old(app.drained)
    ensures r.Returned? <==>
      && |buffer.log| > |old(buffer.log)|
      && (buffer.log[|buffer.log| - 1] == HandedOver || buffer.log[|buffer.log| - 1] == Finished)
    ensures buffer.location.Unnamed? ==> r == Threw(NoPath)
    ensures !buffer.location.Unnamed? && old(buffer.loading) ==> r == Threw(StillLoading)
    ensures !buffer.location.Unnamed? && !old(buffer.loading) && old(buffer.saving) ==> r == Threw(AlreadySaving)
    ensures w.writeFails.Some? && app.outcomes != old(app.outcomes) ==> r == Threw(WriteFailed(w.writeFails.value))
    ensures old(buffer.Ready(w)) && (dispatch == ForceSynchronous || !w.large) ==>
      && buffer.log == old(buffer.log) + [Begun, if w.writeFails.None? then Finished else Abandoned]
      && app.outcomes == old(app.outcomes)
        + [if w.writeFails.None? then Succeeded(buffer.location.path) else Failed(buffer.location.path)]
    ensures old(buffer.Ready(w)) && dispatch == Automatic && w.large && w.localDispatcher == Some(true) ==>
      buffer.log == old(buffer.log) + [Begun, HandedOver] && app.outcomes == old(app.outcomes)
  {
    ghost var refused := RefusedHere(buffer.location, buffer.loading, buffer.saving, w);
    SaveKeepsProtocol(buffer.log, buffer.location, dispatch, refused, w);
    FinishesCounted(buffer.log, buffer.location, dispatch, refused, w);
    if buffer.location.Unnamed? {
      return Threw(NoPath);
    }
    if buffer.location.RemoteFile? {
      r := SaveRemote(buffer, dispatch, w);
    } else {
      r := SaveLocal(buffer, app, buffer.location.path, dispatch, w);
    }
  }

  method SaveRemote(buffer: Buffer, dispatch: Dispatch, w: World) returns (r: SaveResult)
    requires buffer.location.RemoteFile? && (buffer.progress ==> buffer.saving)
    modifies buffer
    ensures var more := EventsOf(buffer.location, dispatch,
      RefusedHere(buffer.location, old(buffer.loading), old(buffer.saving), w), w);
      buffer.log == old(buffer.log) + more && FieldsAfter(buffer, more, old(buffer.saving), old(buffer.progress))
    ensures buffer.loading == old(buffer.loading) && buffer.saveGeneration == old(buffer.saveGeneration)
    ensures var refused := Refusal(old(buffer.loading), old(buffer.saving), true);
      && (refused.Some? ==> r == Threw(refused.value))
      && (refused.None? ==> (r.Returned? <==> RemoteTaken(dispatch, w)))
  {
    var refused := buffer.BeginSave(true);
    if refused.Some? {
      return Threw(refused.value);
    }
    r := WriteRemoteBuffer(buffer, dispatch, w);
    assert buffer.log == old(buffer.log) + [Begun, if RemoteTaken(dispatch, w) then HandedOver else Abandoned];
  }

  method SaveLocal(buffer: Buffer, app: Application, path: string, dispatch: Dispatch, w: World) returns (r: SaveResult)
    requires app.Valid() && buffer.location == LocalFile(path) && (buffer.progress ==> buffer.saving)
    modifies buffer, app
    ensures app.Valid()
    ensures var more := EventsOf(buffer.location, dispatch,
      RefusedHere(buffer.location, old(buffer.loading), old(buffer.saving), w), w);
      buffer.log == old(buffer.log) + more && FieldsAfter(buffer, more, old(buffer.saving), old(buffer.progress))
    ensures buffer.loading == old(buffer.loading)
    ensures
      if WritesHere(buffer.location, dispatch,
        RefusedHere(buffer.location, old(buffer.loading), old(buffer.saving), w), w) then
        && app.outcomes == old(app.outcomes) + OutcomeOf(path, w)
          && app.reported == old(app.reported) + LinesOf(buffer.name, w)
        && buffer.saveGeneration == old(buffer.saveGeneration) + (if w.writeFails.None? then 1 else 0)
      else
        && app.outcomes == old(app.outcomes) && app.reported == old(app.reported)
        && buffer.saveGeneration == old(buffer.saveGeneration)
    ensures app.drained == old(app.drained)
    ensures var refused := Refusal(old(buffer.loading), old(buffer.saving), w.room);
      && (refused.Some? ==> r == Threw(refused.value))
      && (refused.None? && Offered(dispatch, w) && w.localDispatcher.value ==> r == Returned)
      && (refused.None? && Offered(dispatch, w) && !w.localDispatcher.value && !w.roomAgain ==> r == Threw(NoRoom))
      && (refused.None? && (Offered(dispatch, w) ==> !w.localDispatcher.value && w.roomAgain) ==>
            r == if w.writeFails.None? then Returned else Threw(WriteFailed(w.writeFails.value)))
  {
    var refused := buffer.BeginSave(w.room);
    if refused.Some? {
      return Threw(refused.value);
    }
    if dispatch == Automatic && w.large && w.localDispatcher.Some? {
      refused := OfferToDispatcher(buffer, w);
      if w.localDispatcher.value {
        return Returned;
      }
      if refused.Some? {
        return Threw(refused.value);
      }
    }
    r := RunHere(buffer, app, path, w);
  }

  /** The dispatcher takes the begun plan, or refuses it: then it is abandoned and a fresh one begun. */
  method OfferToDispatcher(buffer: Buffer, w: World) returns (refused: Option<SaveError>)
    requires !buffer.loading && w.localDispatcher.Some?
    modifies buffer
    ensures buffer.log == old(buffer.log)
      + if w.localDispatcher.value then [HandedOver] else [Abandoned] + if w.roomAgain then [Begun] else []
    ensures w.localDispatcher.value ==> buffer.saving == old(buffer.saving)
    ensures !w.localDispatcher.value ==>
      buffer.saving == w.roomAgain && !buffer.progress && refused == if w.roomAgain then None else Some(NoRoom)
    ensures buffer.loading == old(buffer.loading) && buffer.saveGeneration == old(buffer.saveGeneration)
  {
    buffer.SetSaveProgress();
    if w.localDispatcher.value {
      buffer.log := buffer.log + [HandedOver];
      return None;
    }
    buffer.AbandonSave();
    refused := buffer.BeginSave(w.roomAgain);
    assert buffer.log == old(buffer.log) + ([Abandoned] + if w.roomAgain then [Begun] else []);
  }

  /** A plan is finished once where the file is written here, and not otherwise. */
  lemma FinishesCounted(log: seq<PlanEvent>, location: Location, dispatch: Dispatch, refused: bool, w: World)
    ensures Count(log + EventsOf(location, dispatch, refused, w), Finished) ==
            Count(log, Finished) + if WritesHere(location, dispatch, refused, w) && w.writeFails.None? then 1 else 0
  {
    var more := EventsOf(location, dispatch, refused, w);
    EventsShape(location, dispatch, refused, w);
    CountAppends(log, more, Finished);
    ShapesCount(more);
  }

  /** Only a last event can finish anything. */
  lemma ShapesCount(more: seq<PlanEvent>)
    requires Shape(more)
    ensures Count(more, Finished) == if more != [] && more[|more| - 1] == Finished then 1 else 0
  {
    if |more| == 2 {
      CountPair(more);
    } else if |more| == 4 {
      CountPair(more[..2]);
      CountPair(more[2..]);
      CountAppends(more[..2], more[2..], Finished);
      assert more == more[..2] + more[2..];
    }
  }

  lemma CountPair(pair: seq<PlanEvent>)
    requires |pair| == 2
    ensures Count(pair, Finished) == (if pair[0] == Finished then 1 else 0) + if pair[1] == Finished then 1 else 0
  {
    var one := pair[..1];
    assert one[..0] == [];
    assert Count(one, Finished) == if one[0] == Finished then 1 else 0;
  }

  lemma {:induction false} CountAppends(log: seq<PlanEvent>, more: seq<PlanEvent>, event: PlanEvent)
    ensures Count(log + more, event) == Count(log, event) + Count(more, event)
  {
    if more == [] {
      assert log + more == log;
    } else {
      CountAppends(log, more[..|more| - 1], event);
      assert (log + more)[..|log + more| - 1] == log + more[..|more| - 1];
    }
  }

  // ---- who writes, in the world's own terms ----

  /**
   A local file's save that is not refused is handed over if and only if it may be, the buffer is large and an
   installed dispatcher takes it. Forced, or of a buffer that is not large, or with no dispatcher, it is written by
   the call, once, and settled as the write went.
   */
  lemma LocalSaveGoes(path: string, dispatch: Dispatch, w: World)
    ensures var events, here :=
        EventsOf(LocalFile(path), dispatch, false, w), WritesHere(LocalFile(path), dispatch, false, w);
      && (HandedOver in events <==> dispatch == Automatic && w.large && w.localDispatcher == Some(true))
      && (dispatch == ForceSynchronous || !w.large || w.localDispatcher.None? ==>
            here && events == [Begun, if w.writeFails.None? then Finished else Abandoned])
      && (dispatch == Automatic && w.large && w.localDispatcher == Some(true) ==>
            !here && events == [Begun, HandedOver])
      && (dispatch == Automatic && w.large && w.localDispatcher == Some(false) ==>
            here == w.roomAgain && events == [Begun, Abandoned]
            + if !w.roomAgain then [] else [Begun, if w.writeFails.None? then Finished else Abandoned])
  {
  }

  /** A remote file's save, once begun, is handed over if and only if it may be and a dispatcher takes it. */
  lemma RemoteSaveGoes(address: string, dispatch: Dispatch, w: World)
    ensures var events := EventsOf(RemoteFile(address), dispatch, false, w);
      && !WritesHere(RemoteFile(address), dispatch, false, w)
      && |events| == 2 && events[0] == Begun && (events[1] == HandedOver || events[1] == Abandoned)
      && (events[1] == HandedOver <==>
            dispatch == Automatic && w.remoteDispatcher == Some(true) && (w.large || w.encodeFails.None?))
  {
  }

  /** Nothing happens to a buffer without a file, nor to one that is loading, being saved, or has no room for a plan. */
  lemma RefusedSaveDoesNothing(location: Location, dispatch: Dispatch, loading: bool, saving: bool, w: World)
    ensures var refused := RefusedHere(location, loading, saving, w);
      && (refused <==> loading || saving || (!location.RemoteFile? && !w.room))
      && (refused || location.Unnamed? ==>
            EventsOf(location, dispatch, refused, w) == [] && !WritesHere(location, dispatch, refused, w))
  {
  }

  /** The call's own write is noted as it went: a success, or a failure and its line. */
  lemma WriteIsNoted(bufferName: string, path: string, w: World)
    ensures w.writeFails.None? ==> OutcomeOf(path, w) == [Succeeded(path)] && LinesOf(bufferName, w) == []
    ensures w.writeFails.Some? ==> OutcomeOf(path, w) == [Failed(path)] && |LinesOf(bufferName, w)| == 1
  {
  }

  /** The answers a small local file gets with an accepting dispatcher installed: written here all the same. */
  lemma SmallFileIsWrittenHere(path: string)
    ensures var w := World(true, true, false, Some(true), None, None, None);
      EventsOf(LocalFile(path), Automatic, false, w) == [Begun, Finished] && OutcomeOf(path, w) == [Succeeded(path)]
  {
  }
}
