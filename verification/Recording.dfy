/** strands_robots/dataset_recorder.py: a recorder over its life, whatever its dataset does to it. */
module Recording {
  import opened Options
  import opened Order
  import opened CameraColumns
  import opened DatasetRecorder

  datatype State<T> = State(
    disk: seq<seq<Frame<T>>>, buffer: seq<Frame<T>>,
    frameCount: int, episodeFrameCount: int, episodeCount: int, droppedFrameCount: nat,
    closed: bool, poisoned: bool,
    stateColumns: Option<seq<string>>, actionColumns: Option<seq<string>>)

  /** One call, and whether the dataset call inside it works; a save of an empty buffer never does. A failed save leaves
      the dataset anyhow. */
  datatype Event<T> =
    | Add(call: Call<T>, order: seq<string>, works: bool)
    | Save(works: bool, wreckedDisk: seq<seq<Frame<T>>>, wreckedBuffer: seq<Frame<T>>)
    | Clear(works: bool)
    | Finalize

  ghost predicate Possible<T>(setup: Setup, event: Event<T>)
  {
    event.Add? ==> Walks(setup, event.call, event.order)
  }

  /** The columns settled on by `call`; a frame that names a camera it lacks fails before they are looked up, and one
      with a state gap before the action's are. */
  ghost function Settle<T>(setup: Setup, s: State<T>, call: Call<T>): State<T>
  {
    if NamesAMissingCamera(call) then s
    else
      var columns := StateColumns(setup, call, s.stateColumns);
      if StateRefusal(call, columns).Some? then s.(stateColumns := columns)
      else s.(stateColumns := columns, actionColumns := ActionColumns(setup, call, s.actionColumns))
  }

  ghost function Added<T>(setup: Setup, s: State<T>, event: Event<T>): State<T>
    requires event.Add? && Possible(setup, event)
  {
    var settled := Settle(setup, s, event.call);
    match Prepare(setup, event.call, event.order, s.stateColumns, s.actionColumns)
    case Refused(_) => settled
    case Ready(frame) =>
      if event.works then
        settled.(
          buffer := s.buffer + [frame], frameCount := s.frameCount + 1, episodeFrameCount := s.episodeFrameCount + 1)
      else if setup.strict then settled
      else settled.(droppedFrameCount := s.droppedFrameCount + 1)
  }

  ghost function After<T>(setup: Setup, s: State<T>, event: Event<T>): State<T>
    requires Possible(setup, event)
  {
    match event
    case Add(_, _, _) => if s.closed then s else Added(setup, s, event)
    case Save(works, disk, buffer) =>
      if s.closed then s
      else if works && s.buffer != [] then
        s.(disk := s.disk + [s.buffer], buffer := [], episodeCount := s.episodeCount + 1, episodeFrameCount := 0)
      else s.(disk := disk, buffer := buffer, closed := true, poisoned := true)
    case Clear(works) =>
      if works && !setup.surface.NoSurface?
      then s.(buffer := [], frameCount := s.frameCount - s.episodeFrameCount, episodeFrameCount := 0)
      else s
    case Finalize => s.(closed := true)
  }

  ghost function Run<T>(setup: Setup, s: State<T>, events: seq<Event<T>>): State<T>
    requires forall i :: 0 <= i < |events| ==> Possible(setup, events[i])
  {
    if |events| == 0 then s else After(setup, Run(setup, s, events[..|events| - 1]), events[|events| - 1])
  }

  function FramesOf<T>(disk: seq<seq<Frame<T>>>): nat
  {
    if |disk| == 0 then 0 else FramesOf(disk[..|disk| - 1]) + |disk[|disk| - 1]|
  }

  ghost predicate Whole<T>(setup: Setup, frames: seq<Frame<T>>)
  {
    forall i :: 0 <= i < |frames| ==> frames[i].images.Keys == setup.cameras
  }

  ghost predicate NoEmptyEpisode<T>(disk: seq<seq<Frame<T>>>)
  {
    forall i :: 0 <= i < |disk| ==> |disk[i]| > 0
  }

  /** Until a failed save, the counters are the frames themselves, every frame carries the declared cameras, and no
      episode on disk is empty. */
  ghost predicate Sound<T>(setup: Setup, s: State<T>)
  {
    && (s.poisoned ==> s.closed)
    && (!s.poisoned ==>
          && s.frameCount == FramesOf(s.disk) + |s.buffer|
          && s.episodeFrameCount == |s.buffer|
          && s.episodeCount == |s.disk|
          && NoEmptyEpisode(s.disk)
          && Whole(setup, s.buffer)
          && forall i :: 0 <= i < |s.disk| ==> Whole(setup, s.disk[i]))
    && (setup.strict ==> s.droppedFrameCount == 0)
  }

  lemma AddKeeps<T>(setup: Setup, s: State<T>, event: Event<T>)
    requires Sound(setup, s) && Possible(setup, event) && event.Add? && !s.closed
    ensures Sound(setup, Added(setup, s, event))
  {
    hide StateColumns, ActionColumns, StateRefusal, ActionRefusal, NamesAMissingCamera, Walks, FramesOf;
    var prepared := Prepare(setup, event.call, event.order, s.stateColumns, s.actionColumns);
    if prepared.Ready? {
      var _, _ := HandedFramesAreWhole(setup, event.call, event.order, s.stateColumns, s.actionColumns);
    }
    hide Prepare;
    assert forall i :: 0 <= i < |s.buffer| ==> s.buffer[i].images.Keys == setup.cameras;
  }

  lemma StepKeeps<T>(setup: Setup, s: State<T>, event: Event<T>)
    requires Sound(setup, s) && Possible(setup, event)
    ensures Sound(setup, After(setup, s, event))
  {
    hide Added;
    if event.Add? && !s.closed {
      AddKeeps(setup, s, event);
    }
    if event.Save? && event.works && s.buffer != [] {
      var disk := s.disk + [s.buffer];
      assert disk[..|s.disk|] == s.disk;
    }
  }

  /** Over every run, with failures at any dataset call. */
  lemma {:induction false} RunKeeps<T>(setup: Setup, s: State<T>, events: seq<Event<T>>)
    requires Sound(setup, s) && forall i :: 0 <= i < |events| ==> Possible(setup, events[i])
    ensures Sound(setup, Run(setup, s, events))
  {
    hide Sound, After;
    if |events| > 0 {
      RunKeeps(setup, s, events[..|events| - 1]);
      StepKeeps(setup, Run(setup, s, events[..|events| - 1]), events[|events| - 1]);
    }
  }

  /** What no call changes once the recorder is closed: nothing is added, nothing is saved, no column is settled. A
      clear may still empty the buffer, and never fills it. */
  ghost predicate Shut<T>(s: State<T>, later: State<T>)
  {
    && later.closed && later.poisoned == s.poisoned && later.disk == s.disk && later.episodeCount == s.episodeCount
    && (later.buffer == s.buffer || later.buffer == []) && later.droppedFrameCount == s.droppedFrameCount
    && later.stateColumns == s.stateColumns && later.actionColumns == s.actionColumns
  }

  lemma {:induction false} ClosedForGood<T>(setup: Setup, s: State<T>, events: seq<Event<T>>)
    requires s.closed && forall i :: 0 <= i < |events| ==> Possible(setup, events[i])
    ensures Shut(s, Run(setup, s, events))
    ensures (forall i :: 0 <= i < |events| ==> !events[i].Clear?) ==> Run(setup, s, events) == s
  {
    hide Added;
    if |events| > 0 {
      ClosedForGood(setup, s, events[..|events| - 1]);
    }
  }

  /** Closed with frames still buffered, a recorder goes on counting frames no later save writes; unless it is cleared,
      its total is what is on disk exactly when the buffer was empty. */
  lemma FinalizedCountIsOnDiskIff<T>(setup: Setup, s: State<T>, events: seq<Event<T>>)
    requires Sound(setup, s) && s.closed && !s.poisoned
    requires forall i :: 0 <= i < |events| ==> Possible(setup, events[i]) && !events[i].Clear?
    ensures Run(setup, s, events).frameCount == FramesOf(Run(setup, s, events).disk) <==> s.buffer == []
  {
    hide Run, After, FramesOf;
    ClosedForGood(setup, s, events);
  }

  /** Columns once settled stay settled, so every vector of a run has one meaning. */
  lemma {:induction false} ColumnsStay<T>(setup: Setup, s: State<T>, events: seq<Event<T>>)
    requires forall i :: 0 <= i < |events| ==> Possible(setup, events[i])
    ensures s.stateColumns.Some? ==> Run(setup, s, events).stateColumns == s.stateColumns
    ensures s.actionColumns.Some? ==> Run(setup, s, events).actionColumns == s.actionColumns
  {
    hide Prepare, StateRefusal, NamesAMissingCamera, Walks;
    if |events| > 0 {
      ColumnsStay(setup, s, events[..|events| - 1]);
    }
  }

  lemma {:induction false} RunAppend<T>(setup: Setup, s: State<T>, a: seq<Event<T>>, b: seq<Event<T>>)
    requires forall i :: 0 <= i < |a| ==> Possible(setup, a[i])
    requires forall i :: 0 <= i < |b| ==> Possible(setup, b[i])
    ensures Run(setup, s, a + b) == Run(setup, Run(setup, s, a), b)
  {
    hide After, Possible;
    if |b| == 0 {
      assert a + b == a;
    } else {
      RunAppend(setup, s, a, b[..|b| - 1]);
      assert (a + b)[..|a + b| - 1] == a + b[..|b| - 1];
    }
  }

  /** The columns the vectors of one frame are written in are those of every later frame. */
  lemma ColumnsOfAFrameStay<T>(setup: Setup, s: State<T>, before: seq<Event<T>>, add: Event<T>, later: seq<Event<T>>)
    requires forall i :: 0 <= i < |before| ==> Possible(setup, before[i])
    requires forall i :: 0 <= i < |later| ==> Possible(setup, later[i])
    requires Possible(setup, add) && add.Add? && !Run(setup, s, before).closed
    requires var was := Run(setup, s, before);
      Prepare(setup, add.call, add.order, was.stateColumns, was.actionColumns).Ready?
    ensures var was, end := Run(setup, s, before), Run(setup, s, before + [add] + later);
      && (StateColumns(setup, add.call, was.stateColumns).Some? ==>
            end.stateColumns == StateColumns(setup, add.call, was.stateColumns))
      && (ActionColumns(setup, add.call, was.actionColumns).Some? ==>
            end.actionColumns == ActionColumns(setup, add.call, was.actionColumns))
  {
    var was := Run(setup, s, before);
    RunAppend(setup, s, before + [add], later);
    RunAppend(setup, s, before, [add]);
    FrameSettles(setup, was, add);
    RunOfOne(setup, was, add);
    hide Run, After, Prepare, StateColumns, ActionColumns, Possible;
    ColumnsStay(setup, After(setup, was, add), later);
  }

  lemma RunOfOne<T>(setup: Setup, s: State<T>, event: Event<T>)
    requires Possible(setup, event)
    ensures Run(setup, s, [event]) == After(setup, s, event)
  {
    assert [event][..0] == [];
  }

  lemma FrameSettles<T>(setup: Setup, s: State<T>, add: Event<T>)
    requires Possible(setup, add) && add.Add? && !s.closed
    requires Prepare(setup, add.call, add.order, s.stateColumns, s.actionColumns).Ready?
    ensures After(setup, s, add).stateColumns == StateColumns(setup, add.call, s.stateColumns)
    ensures After(setup, s, add).actionColumns == ActionColumns(setup, add.call, s.actionColumns)
  {
    hide StateColumns, ActionColumns, HandedImages, StateVector, ActionVector, ActionRefusal, Walks;
  }

  /** The columns a recorder may have settled on: the declared ones, or else the sorted keys of a frame of the run. */
  ghost predicate FromSchema<T>(setup: Setup, s: State<T>, events: seq<Event<T>>)
  {
    && (s.stateColumns.Some? ==>
          if setup.stateSources.Some? then s.stateColumns == setup.stateSources
          else if |setup.stateNames| > 0 then s.stateColumns.value == setup.stateNames
          else exists e :: (e in events && e.Add? && StateKeys(e.call) != {}
                              && s.stateColumns.value == Sorted(StateKeys(e.call))))
    && (s.actionColumns.Some? ==>
          if |setup.actionNames| > 0 then s.actionColumns.value == setup.actionNames
          else exists e :: (e in events && e.Add? && e.call.action.values.Keys != {}
                              && s.actionColumns.value == Sorted(e.call.action.values.Keys)))
  }

  lemma {:induction false} ColumnsComeFromTheSchema<T>(setup: Setup, s: State<T>, events: seq<Event<T>>)
    requires forall i :: 0 <= i < |events| ==> Possible(setup, events[i])
    requires s.stateColumns == None && s.actionColumns == None
    ensures FromSchema(setup, Run(setup, s, events), events)
  {
    if |events| > 0 {
      var init, last := events[..|events| - 1], events[|events| - 1];
      ColumnsComeFromTheSchema(setup, s, init);
      var before, after := Run(setup, s, init), Run(setup, s, events);
      assert events == init + [last];
      SettledBy(setup, before, last);
      hide After, Run, StateKeys, StateColumns, ActionColumns;
      assert after == After(setup, before, last);
    }
  }

  /** One step leaves the columns alone or settles them from the schema or the frame added. */
  lemma SettledBy<T>(setup: Setup, s: State<T>, event: Event<T>)
    requires Possible(setup, event)
    ensures var later := After(setup, s, event);
      && (later.stateColumns == s.stateColumns
        || (event.Add? && later.stateColumns == StateColumns(setup, event.call, s.stateColumns)))
      && (later.actionColumns == s.actionColumns
        || (event.Add? && later.actionColumns == ActionColumns(setup, event.call, s.actionColumns)))
  {
    hide StateColumns, ActionColumns, StateRefusal, NamesAMissingCamera, Prepare;
  }

  /** The dataset was handed a frame by this step, and did not take it. */
  ghost predicate LosesAFrame<T>(setup: Setup, s: State<T>, event: Event<T>)
    requires Possible(setup, event)
  {
    event.Add? && !s.closed && !event.works
      && Prepare(setup, event.call, event.order, s.stateColumns, s.actionColumns).Ready?
  }

  ghost function FramesLost<T>(setup: Setup, s: State<T>, events: seq<Event<T>>): nat
    requires forall i :: 0 <= i < |events| ==> Possible(setup, events[i])
  {
    if |events| == 0 then 0
    else
      var init, last := events[..|events| - 1], events[|events| - 1];
      FramesLost(setup, s, init) + if LosesAFrame(setup, Run(setup, s, init), last) then 1 else 0
  }

  /** Over every run a best-effort recorder counts exactly the frames its dataset did not take, and a strict one, which
      raises for each of them, counts none. */
  lemma {:induction false} DropsAreCounted<T>(setup: Setup, s: State<T>, events: seq<Event<T>>)
    requires forall i :: 0 <= i < |events| ==> Possible(setup, events[i])
    ensures Run(setup, s, events).droppedFrameCount
      == s.droppedFrameCount + if setup.strict then 0 else FramesLost(setup, s, events)
  {
    hide Prepare, StateColumns, ActionColumns, StateRefusal, NamesAMissingCamera, Walks;
    if |events| > 0 {
      DropsAreCounted(setup, s, events[..|events| - 1]);
    }
  }

  // What ends up in an episode.

  /** The frame this step hands to the dataset, if it is handed one that it takes. */
  ghost function HandedBy<T>(setup: Setup, s: State<T>, event: Event<T>): seq<Frame<T>>
    requires Possible(setup, event)
  {
    if event.Add? && !s.closed && event.works then
      match Prepare(setup, event.call, event.order, s.stateColumns, s.actionColumns)
      case Refused(_) => []
      case Ready(frame) => [frame]
    else []
  }

  /** The frames a run hands over and the dataset takes, in order. */
  ghost function Handed<T>(setup: Setup, s: State<T>, events: seq<Event<T>>): seq<Frame<T>>
    requires forall i :: 0 <= i < |events| ==> Possible(setup, events[i])
  {
    if |events| == 0 then []
    else
      var init, last := events[..|events| - 1], events[|events| - 1];
      Handed(setup, s, init) + HandedBy(setup, Run(setup, s, init), last)
  }

  lemma StepGathers<T>(setup: Setup, s: State<T>, event: Event<T>)
    requires Possible(setup, event) && !event.Save? && !event.Clear?
    ensures var later := After(setup, s, event);
      && later.buffer == s.buffer + HandedBy(setup, s, event) && later.disk == s.disk
      && (later.closed <==> s.closed || event.Finalize?)
  {
    hide Prepare, NamesAMissingCamera, StateColumns, ActionColumns, StateRefusal;
    if event.Add? {
      SettlingKeepsFrames(setup, s, event.call);
      hide Settle;
    }
  }

  lemma SettlingKeepsFrames<T>(setup: Setup, s: State<T>, call: Call<T>)
    ensures var settled := Settle(setup, s, call);
      settled.buffer == s.buffer && settled.disk == s.disk && settled.closed == s.closed
  {
    hide NamesAMissingCamera, StateColumns, ActionColumns, StateRefusal;
  }

  ghost predicate Finalizes<T>(events: seq<Event<T>>)
  {
    exists i :: 0 <= i < |events| && events[i].Finalize?
  }

  lemma OneMoreFinalize<T>(events: seq<Event<T>>, last: Event<T>)
    ensures Finalizes(events + [last]) <==> Finalizes(events) || last.Finalize?
  {
    var all := events + [last];
    assert all[|events|] == last && forall i :: 0 <= i < |events| ==> all[i] == events[i];
  }

  /** Between two calls that empty it, the buffer gathers exactly the frames handed over, each once and in order. */
  lemma {:induction false} BufferGathers<T>(setup: Setup, s: State<T>, events: seq<Event<T>>)
    requires forall i :: 0 <= i < |events| ==> Possible(setup, events[i]) && !events[i].Save? && !events[i].Clear?
    ensures var later := Run(setup, s, events);
      && later.buffer == s.buffer + Handed(setup, s, events) && later.disk == s.disk
      && (later.closed <==> s.closed || Finalizes(events))
  {
    hide After, HandedBy, Possible, Finalizes;
    if |events| > 0 {
      var init, last := events[..|events| - 1], events[|events| - 1];
      BufferGathers(setup, s, init);
      StepGathers(setup, Run(setup, s, init), last);
      OneMoreFinalize(init, last);
      assert events == init + [last];
    } else {
      NothingFinalizes(events);
    }
  }

  lemma NothingFinalizes<T>(events: seq<Event<T>>)
    requires events == []
    ensures !Finalizes(events)
  {
  }

  lemma RunOneMore<T>(setup: Setup, s: State<T>, events: seq<Event<T>>, event: Event<T>)
    requires Possible(setup, event) && forall i :: 0 <= i < |events| ==> Possible(setup, events[i])
    ensures Run(setup, s, events + [event]) == After(setup, Run(setup, s, events), event)
  {
    assert (events + [event])[..|events|] == events;
  }

  lemma AddsGather<T>(setup: Setup, s: State<T>, events: seq<Event<T>>)
    requires s.buffer == [] && forall i :: 0 <= i < |events| ==> Possible(setup, events[i]) && events[i].Add?
    ensures var later := Run(setup, s, events);
      later.buffer == Handed(setup, s, events) && later.disk == s.disk && later.closed == s.closed
  {
    hide Run, Handed, Possible;
    BufferGathers(setup, s, events);
    assert [] + Handed(setup, s, events) == Handed(setup, s, events);
  }

  lemma SaveTakesTheBuffer<T>(setup: Setup, s: State<T>, save: Event<T>)
    requires Possible(setup, save) && save.Save? && save.works && !s.closed && s.buffer != []
    ensures After(setup, s, save).disk == s.disk + [s.buffer] && After(setup, s, save).buffer == []
  {
    hide Added;
  }

  /** A save makes one episode of exactly the frames handed over since the buffer was last emptied, in order. */
  lemma EpisodeIsItsFrames<T>(setup: Setup, s: State<T>, events: seq<Event<T>>, save: Event<T>)
    requires s.buffer == [] && !s.closed && save.Save? && save.works
    requires forall i :: 0 <= i < |events| ==> Possible(setup, events[i]) && events[i].Add?
    requires Handed(setup, s, events) != []
    ensures var saved := Run(setup, s, events + [save]);
      saved.disk == s.disk + [Handed(setup, s, events)] && saved.buffer == []
  {
    AddsGather(setup, s, events);
    RunOneMore(setup, s, events, save);
    hide Run, Handed, After, Walks;
    SaveTakesTheBuffer(setup, Run(setup, s, events), save);
  }

  /** A clear that works leaves none of the frames handed over since then anywhere. */
  lemma ClearedIsGone<T>(setup: Setup, s: State<T>, events: seq<Event<T>>, clear: Event<T>)
    requires s.buffer == [] && !setup.surface.NoSurface? && clear.Clear? && clear.works
    requires forall i :: 0 <= i < |events| ==> Possible(setup, events[i]) && events[i].Add?
    ensures var cleared := Run(setup, s, events + [clear]); cleared.disk == s.disk && cleared.buffer == []
  {
    AddsGather(setup, s, events);
    RunOneMore(setup, s, events, clear);
    hide Run, Handed, Added, Walks;
  }

  predicate MayPush<T>(s: State<T>)
  {
    s.frameCount != 0 && s.episodeCount != 0
  }

  lemma {:induction false} FramesOfDisk<T>(disk: seq<seq<Frame<T>>>)
    ensures FramesOf(disk) == 0 <==> forall i :: 0 <= i < |disk| ==> |disk[i]| == 0
    ensures NoEmptyEpisode(disk) ==> FramesOf(disk) >= |disk|
  {
    if |disk| > 0 {
      var init := disk[..|disk| - 1];
      FramesOfDisk(init);
      assert forall i :: 0 <= i < |init| ==> init[i] == disk[i];
    }
  }

  /** Over every run, until a failed save: the push guard lets exactly a dataset with frames on disk through. */
  lemma PushNeedsFramesOnDisk<T>(setup: Setup, s: State<T>, events: seq<Event<T>>)
    requires Sound(setup, s) && forall i :: 0 <= i < |events| ==> Possible(setup, events[i])
    ensures var later := Run(setup, s, events); !later.poisoned ==> (MayPush(later) <==> FramesOf(later.disk) > 0)
  {
    RunKeeps(setup, s, events);
    hide Run;
    FramesOfDisk(Run(setup, s, events).disk);
  }

  /** The LeRobot dataset, as the recorder sees it: episodes on disk and one in a buffer. Every call may fail, and a
      save with nothing buffered always does. */
  class Dataset<T> {
    var disk: seq<seq<Frame<T>>>
    var buffer: seq<Frame<T>>

    constructor (disk: seq<seq<Frame<T>>>)
      ensures this.disk == disk && buffer == []
    {
      this.disk := disk;
      buffer := [];
    }

    method AddFrame(frame: Frame<T>, works: bool) returns (ok: bool)
      modifies this
      ensures ok == works && disk == old(disk) && buffer == if works then old(buffer) + [frame] else old(buffer)
    {
      ok := works;
      if works {
        buffer := buffer + [frame];
      }
    }

    method SaveEpisode(works: bool, wreckedDisk: seq<seq<Frame<T>>>, wreckedBuffer: seq<Frame<T>>) returns (ok: bool)
      modifies this
      ensures ok == (works && old(buffer) != [])
      ensures ok ==> disk == old(disk) + [old(buffer)] && buffer == []
      ensures !ok ==> disk == wreckedDisk && buffer == wreckedBuffer
    {
      ok := works && |buffer| > 0;
      if ok {
        disk, buffer := disk + [buffer], [];
      } else {
        disk, buffer := wreckedDisk, wreckedBuffer;
      }
    }

    method ClearEpisodeBuffer(works: bool) returns (ok: bool)
      modifies this
      ensures ok == works && disk == old(disk) && buffer == if works then [] else old(buffer)
    {
      ok := works;
      if works {
        buffer := [];
      }
    }
  }

  datatype Outcome = Ignored | Raised(why: Refusal) | Written | Dropped | FrameError

  class Recorder<T> {
    const setup: Setup
    const dataset: Dataset<T>
    var frameCount: int
    var episodeFrameCount: int
    var droppedFrameCount: nat
    var episodeCount: int
    var closed: bool
    ghost var poisoned: bool
    var stateColumns: Option<seq<string>>
    var actionColumns: Option<seq<string>>

    ghost function View(): State<T>
      reads this, dataset
    {
      State(dataset.disk, dataset.buffer, frameCount, episodeFrameCount,
            episodeCount, droppedFrameCount, closed, poisoned,
            stateColumns, actionColumns)
    }

    /** `create` over an empty dataset, or `resume` over one whose totals seed the counters. */
    constructor (setup: Setup, dataset: Dataset<T>)
      requires dataset.buffer == [] && NoEmptyEpisode(dataset.disk)
      requires forall i :: 0 <= i < |dataset.disk| ==> Whole(setup, dataset.disk[i])
      ensures this.setup == setup && this.dataset == dataset
      ensures Sound(setup, View()) && View().disk == dataset.disk && !closed
        && stateColumns == None && actionColumns == None
    {
      this.setup, this.dataset := setup, dataset;
      frameCount, episodeCount := FramesOf(dataset.disk), |dataset.disk|;
      episodeFrameCount, droppedFrameCount, closed, poisoned := 0, 0, false, false;
      stateColumns, actionColumns := None, None;
    }

    method SaveEpisode(works: bool, wreckedDisk: seq<seq<Frame<T>>>,
        wreckedBuffer: seq<Frame<T>>) returns (saved: Option<nat>)
      requires Sound(setup, View())
      modifies this, dataset
      ensures View() == After(setup, old(View()), Save(works, wreckedDisk, wreckedBuffer)) && Sound(setup, View())
      ensures saved == if !old(closed) && works && old(dataset.buffer) != [] then Some(|old(dataset.buffer)|) else None
    {
      StepKeeps(setup, View(), Save(works, wreckedDisk, wreckedBuffer));
      if closed {
        return None;
      }
      var ok := dataset.SaveEpisode(works, wreckedDisk, wreckedBuffer);
      if ok {
        episodeCount := episodeCount + 1;
        saved := Some(episodeFrameCount);
        episodeFrameCount := 0;
      } else {
        saved := None;
        poisoned := true;
        closed := true;
      }
    }

    method ClearEpisodeBuffer(works: bool) returns (cleared: bool)
      requires Sound(setup, View())
      modifies this, dataset
      ensures View() == After(setup, old(View()), Clear(works)) && Sound(setup, View())
      ensures cleared ==> dataset.buffer == []
      ensures !cleared ==> View() == old(View())
    {
      StepKeeps(setup, View(), Clear(works));
      cleared := false;
      if setup.surface.ClearMethod? {
        cleared := dataset.ClearEpisodeBuffer(works);
      } else if setup.surface.CreateMethod? && works {
        dataset.buffer := [];
        cleared := true;
      }
      if cleared {
        frameCount := frameCount - episodeFrameCount;
        episodeFrameCount := 0;
      }
    }

    method Finish()
      requires Sound(setup, View())
      modifies this
      ensures View() == After(setup, old(View()), Finalize) && Sound(setup, View())
    {
      StepKeeps(setup, View(), Finalize);
      closed := true;
    }

    /** Pushes what it is asked to only when the guard lets it. */
    method PushToHub() returns (pushed: bool)
      requires Sound(setup, View())
      ensures pushed == MayPush(View())
    {
      pushed := !(frameCount == 0 || episodeCount == 0);
    }

    /** The columns of this frame's vectors, unless it is refused on the way. */
    method SettleColumns(call: Call<T>) returns (why: Option<Refusal>)
      requires !NamesAMissingCamera(call)
      modifies this`stateColumns, this`actionColumns
      ensures View() == Settle(setup, old(View()), call)
      ensures why == FirstRefusal(setup, call, old(stateColumns), old(actionColumns))
      ensures why.None? ==> stateColumns == StateColumns(setup, call, old(stateColumns))
      ensures why.None? ==> actionColumns == ActionColumns(setup, call, old(actionColumns))
    {
      hide StateColumns, ActionColumns, StateRefusal, ActionRefusal, NamesAMissingCamera;
      stateColumns := StateColumns(setup, call, stateColumns);
      why := StateRefusal(call, stateColumns);
      if why.Some? {
        return;
      }
      actionColumns := ActionColumns(setup, call, actionColumns);
      why := ActionRefusal(call, actionColumns);
    }

    method AddFrame(call: Call<T>, works: bool) returns (outcome: Outcome, ghost order: seq<string>)
      requires Sound(setup, View())
      modifies this, dataset
      ensures Walks(setup, call, order)
      ensures View() == After(setup, old(View()), Add(call, order, works)) && Sound(setup, View())
      ensures outcome == OutcomeOf(setup, old(View()), call, order, works)
    {
      hide Sound, StateColumns, ActionColumns, NamesAMissingCamera, MoveAll, Reconciled, Lists, Elements, Distinct;
      hide ImageNames, Images, CameraKeys, StateKeys, FirstRefusal, Flattened;
      order := SomeWalk(setup, call);
      StepKeeps(setup, View(), Add(call, order, works));
      if closed {
        return Ignored, order;
      }
      var found, names, images := CollectImages(call);
      if !found {
        MissingCameraIsRefused(setup, call, stateColumns, actionColumns);
        return Raised(NoSuchCamera), order;
      }
      ghost var before := View();
      var why := SettleColumns(call);
      if why.Some? {
        return Raised(why.value), order;
      }
      var state := BuildVector(StateKeys(call) != {}, stateColumns, call.observation);
      var action := BuildVector(call.action.values.Keys != {}, actionColumns, call.action);
      ImagesAreListed(call);
      var columns, walk := Reconcile(images, setup.renaming, names, setup.cameras);
      order := walk;
      StepKeeps(setup, before, Add(call, order, works));
      if columns.None? {
        return Raised(CameraGap), order;
      }
      var ok := dataset.AddFrame(Frame(columns.value, state, action, TaskText(call.task, setup.defaultTask)), works);
      if ok {
        frameCount := frameCount + 1;
        episodeFrameCount := episodeFrameCount + 1;
        outcome := Written;
      } else if setup.strict {
        outcome := FrameError;
      } else {
        droppedFrameCount := droppedFrameCount + 1;
        outcome := Dropped;
      }
    }
  }

  lemma ImagesAreListed<T>(call: Call<T>)
    ensures Lists(ImageNames(CameraKeys(call), call.observation), Images(CameraKeys(call), call.observation).Keys)
  {
    hide CameraKeys;
    assert Elements(ImageNames(CameraKeys(call), call.observation)) == Images(CameraKeys(call), call.observation).Keys;
  }

  lemma MissingCameraIsRefused<T>(setup: Setup, call: Call<T>, state: Option<seq<string>>, action: Option<seq<string>>)
    requires NamesAMissingCamera(call)
    ensures FirstRefusal(setup, call, state, action) == Some(NoSuchCamera)
  {
  }

  ghost function OutcomeOf<T>(setup: Setup, s: State<T>, call: Call<T>, order: seq<string>, works: bool): Outcome
    requires Walks(setup, call, order)
  {
    if s.closed then Ignored
    else
      match Prepare(setup, call, order, s.stateColumns, s.actionColumns)
      case Refused(why) => Raised(why)
      case Ready(_) => if works then Written else if setup.strict then FrameError else Dropped
  }

  lemma SomeWalk<T>(setup: Setup, call: Call<T>) returns (order: seq<string>)
    ensures Walks(setup, call, order)
  {
    order := Sorted(MovedImages(setup, call).Keys);
  }
}
