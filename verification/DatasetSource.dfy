/** strands_robots/dataset_source.py: the frames of one episode, from whichever of four sources answers. */
module DatasetSource {
  import opened Options

  /** A stored number: not there, there but unreadable, or read. */
  datatype Cell = Absent | Broken | Given(value: int)

  datatype Row = Row(fromIndex: Cell, toIndex: Cell, length: Cell)

  datatype Table = Table(froms: seq<Cell>, tos: seq<Cell>)

  /** What a LeRobot dataset offers; versions differ in which parts exist. */
  datatype Source = Source(totalEpisodes: Option<nat>, rows: Option<seq<Row>>, table: Option<Table>, frames: seq<int>)

  datatype Resolution = Found(start: int, length: int) | BadIndex | NoEpisodeCount | OutOfRange | NoFrames

  function EpisodeCount(source: Source): Option<nat>
  {
    if source.totalEpisodes.Some? then source.totalEpisodes
    else if source.rows.Some? then Some(|source.rows.value|)
    else None
  }

  /** The metadata row, empty where the dataset keeps none; reading past the rows fails. */
  function RowOf(source: Source, episode: nat): Option<Row>
  {
    if source.rows.None? then Some(Row(Absent, Absent, Absent))
    else if episode < |source.rows.value| then Some(source.rows.value[episode])
    else None
  }

  function At(cells: seq<Cell>, episode: nat): Cell
  {
    if episode < |cells| then cells[episode] else Broken
  }

  function Between(first: Cell, last: Cell): Option<(int, int)>
  {
    if first.Given? && last.Given? then Some((first.value, last.value - first.value)) else None
  }

  /** A length, zero where the row has none; `None` where reading it fails. */
  function LengthAt(source: Source, episode: nat): Option<int>
  {
    match RowOf(source, episode)
    case None => None
    case Some(row) => if row.length.Broken? then None
      else if row.length.Absent? then Some(0) else Some(row.length.value)
  }

  function SumBefore(source: Source, episode: nat): Option<int>
  {
    if episode == 0 then Some(0)
    else
      var sum, more := SumBefore(source, episode - 1), LengthAt(source, episode - 1);
      if sum.None? || more.None? then None else Some(sum.value + more.value)
  }

  /** No row range and no index table: the lengths are added up. */
  predicate AddsUp(source: Source, episode: nat)
  {
    RowOf(source, episode).Some? && RowOf(source, episode).value.fromIndex.Absent? && source.table.None?
  }

  /** What the metadata states; `None` where reading it fails. */
  function Stated(source: Source, episode: nat): Option<(int, int)>
  {
    match RowOf(source, episode)
    case None => None
    case Some(row) =>
      if !row.fromIndex.Absent? then Between(row.fromIndex, row.toIndex)
      else if source.table.Some?
        then Between(At(source.table.value.froms, episode), At(source.table.value.tos, episode))
      else
        var start, length := SumBefore(source, episode), LengthAt(source, episode);
        if start.None? || length.None? then None else Some((start.value, length.value))
  }

  // What the metadata states, told from the cells.

  /** The episode's own row gives both ends. */
  ghost predicate RowGives(source: Source, episode: nat, start: int, end: int)
  {
    && source.rows.Some? && episode < |source.rows.value|
    && source.rows.value[episode].fromIndex == Given(start) && source.rows.value[episode].toIndex == Given(end)
  }

  /** There are no rows, or the episode's says nothing of where it starts. */
  ghost predicate RowIsSilent(source: Source, episode: nat)
  {
    source.rows.Some? ==> episode < |source.rows.value| && source.rows.value[episode].fromIndex == Absent
  }

  ghost predicate TableGives(source: Source, episode: nat, start: int, end: int)
  {
    && RowIsSilent(source, episode) && source.table.Some?
    && episode < |source.table.value.froms| && source.table.value.froms[episode] == Given(start)
    && episode < |source.table.value.tos| && source.table.value.tos[episode] == Given(end)
  }

  /** The lengths of the episodes up to this one, nothing where none is stored. */
  ghost predicate LengthsAre(source: Source, lengths: seq<int>)
  {
    forall i :: 0 <= i < |lengths| ==>
      && (source.rows.None? ==> lengths[i] == 0)
      && (source.rows.Some? ==>
            && i < |source.rows.value| && source.rows.value[i].length in {Given(lengths[i]), Absent}
            && (source.rows.value[i].length == Absent ==> lengths[i] == 0))
  }

  ghost predicate LengthsGive(source: Source, episode: nat, lengths: seq<int>, start: int, length: int)
  {
    && RowIsSilent(source, episode) && source.table.None?
    && |lengths| == episode + 1 && LengthsAre(source, lengths)
    && Total(lengths[..episode]) == start && lengths[episode] == length
  }

  function Total(lengths: seq<int>): int
  {
    if |lengths| == 0 then 0 else Total(lengths[..|lengths| - 1]) + lengths[|lengths| - 1]
  }

  lemma {:induction false} SumIsTotal(source: Source, lengths: seq<int>)
    requires LengthsAre(source, lengths)
    ensures SumBefore(source, |lengths|) == Some(Total(lengths))
  {
    if |lengths| > 0 {
      SumIsTotal(source, lengths[..|lengths| - 1]);
    }
  }

  lemma {:induction false} SumHasLengths(source: Source, episode: nat) returns (lengths: seq<int>)
    requires SumBefore(source, episode).Some?
    ensures |lengths| == episode && LengthsAre(source, lengths)
  {
    lengths := [];
    if episode > 0 {
      lengths := SumHasLengths(source, episode - 1);
      lengths := lengths + [LengthAt(source, episode - 1).value];
    }
  }

  /** A range is stated by the episode's own row; where that is silent, by the index table; and where there is none, by
      the lengths of the episodes up to it, added up. */
  lemma StatedIff(source: Source, episode: nat, start: int, length: int)
    ensures Stated(source, episode) == Some((start, length)) <==>
      || RowGives(source, episode, start, start + length) || TableGives(source, episode, start, start + length)
      || exists lengths :: LengthsGive(source, episode, lengths, start, length)
  {
    if AddsUp(source, episode) && Stated(source, episode).Some? {
      var before := SumHasLengths(source, episode);
      var lengths := before + [LengthAt(source, episode).value];
      SumIsTotal(source, before);
      assert lengths[..episode] == before;
      assert LengthsAre(source, lengths);
      assert LengthsGive(source, episode, lengths, Total(before), lengths[episode]);
    }
    if lengths :| LengthsGive(source, episode, lengths, start, length) {
      SumIsTotal(source, lengths[..episode]);
    }
  }

  /** The first run of the episode's frames, whole; or there is no frame of it. */
  ghost predicate IsFirstRun(frames: seq<int>, episode: nat, start: int, length: int)
  {
    if length == 0 then episode !in frames
    else
      && 0 <= start && 0 < length && start + length <= |frames|
      && (forall k :: 0 <= k < start ==> frames[k] != episode)
      && (forall k :: start <= k < start + length ==> frames[k] == episode)
      && (start + length < |frames| ==> frames[start + length] != episode)
  }

  ghost predicate Resolves(source: Source, episode: int, resolution: Resolution)
  {
    if episode < 0 then resolution == BadIndex
    else if EpisodeCount(source).None? then resolution == NoEpisodeCount
    else if episode >= EpisodeCount(source).value then resolution == OutOfRange
    else
      match Stated(source, episode)
      case Some((start, length)) => resolution == if length == 0 then NoFrames else Found(start, length)
      case None =>
        match resolution
        case Found(start, length) => length > 0 && IsFirstRun(source.frames, episode, start, length)
        case NoFrames => episode !in source.frames
        case _ => false
  }

  /** The last rung. It starts from a start left over from a failed rung, and a length no failed rung has set. */
  method Scan(frames: seq<int>, episode: nat, leftOver: int) returns (start: int, length: int)
    ensures IsFirstRun(frames, episode, start, length)
  {
    start, length := leftOver, 0;
    for i := 0 to |frames|
      invariant length == 0 ==> episode !in frames[..i]
      invariant length != 0 ==>
        0 <= start && 0 < length && start + length == i && (forall k :: 0 <= k < start ==> frames[k] != episode) &&
        forall k :: start <= k < i ==> frames[k] == episode
    {
      if frames[i] == episode {
        if length == 0 {
          start := i;
        }
        length := length + 1;
      } else if length > 0 {
        break;
      }
    }
  }

  /** The range, and whether reading it failed; the length is still zero when it did. */
  method ReadStated(source: Source, episode: nat) returns (failed: bool, start: int, length: int)
    ensures failed ==> Stated(source, episode).None? && length == 0
    ensures !failed ==> Stated(source, episode) == Some((start, length))
  {
    failed, start, length := true, 0, 0;
    var row := RowOf(source, episode);
    if row.None? {
      return;
    }
    if !row.value.fromIndex.Absent? {
      if row.value.fromIndex.Broken? {
        return;
      }
      start := row.value.fromIndex.value;
      if !row.value.toIndex.Given? {
        return;
      }
      length := row.value.toIndex.value - start;
    } else if source.table.Some? {
      var first, last := At(source.table.value.froms, episode), At(source.table.value.tos, episode);
      if !first.Given? || !last.Given? {
        return;
      }
      start, length := first.value, last.value - first.value;
    } else {
      for i := 0 to episode
        invariant SumBefore(source, i) == Some(start)
      {
        var more := LengthAt(source, i);
        if more.None? {
          FailsOn(source, i, episode);
          return;
        }
        start := start + more.value;
      }
      var own := LengthAt(source, episode);
      if own.None? {
        return;
      }
      length := own.value;
    }
    failed := false;
  }

  lemma {:induction false} FailsOn(source: Source, i: nat, episode: nat)
    requires i < episode && LengthAt(source, i).None?
    ensures SumBefore(source, episode).None?
  {
    if i < episode - 1 {
      FailsOn(source, i, episode - 1);
    }
  }

  method LoadEpisodeRange(source: Source, episode: int) returns (resolution: Resolution)
    ensures Resolves(source, episode, resolution)
    ensures resolution.BadIndex? <==> episode < 0
    ensures resolution.NoEpisodeCount? <==> episode >= 0 && source.totalEpisodes.None? && source.rows.None?
    ensures resolution.OutOfRange? <==>
      && episode >= 0
      && (if source.totalEpisodes.Some? then episode >= source.totalEpisodes.value
          else source.rows.Some? && episode >= |source.rows.value|)
  {
    if episode < 0 {
      return BadIndex;
    }
    var count := EpisodeCount(source);
    if count.None? {
      return NoEpisodeCount;
    }
    if episode >= count.value {
      return OutOfRange;
    }
    var failed, start, length := ReadStated(source, episode);
    if failed {
      start, length := Scan(source.frames, episode, start);
    }
    resolution := if length == 0 then NoFrames else Found(start, length);
  }

  // Datasets whose episodes lie one after the other.

  function Start(lengths: seq<nat>, episode: nat): nat
    requires episode <= |lengths|
  {
    if episode == 0 then 0 else Start(lengths, episode - 1) + lengths[episode - 1]
  }

  /** Episode 0's frames, then episode 1's, and so on. */
  function Layout(lengths: seq<nat>): seq<int>
  {
    if |lengths| == 0 then []
    else Layout(lengths[..|lengths| - 1]) + seq(lengths[|lengths| - 1], _ => |lengths| - 1)
  }

  lemma {:induction false} StartOfPrefix(lengths: seq<nat>, more: seq<nat>, episode: nat)
    requires episode <= |lengths|
    ensures Start(lengths + more, episode) == Start(lengths, episode)
  {
    if episode > 0 {
      StartOfPrefix(lengths, more, episode - 1);
    }
  }

  lemma {:induction false} StartsRise(lengths: seq<nat>, i: nat, j: nat)
    requires i <= j <= |lengths|
    ensures Start(lengths, i) <= Start(lengths, j)
  {
    if i < j {
      StartsRise(lengths, i, j - 1);
    }
  }

  lemma {:induction false} LayoutFrames(lengths: seq<nat>, episode: nat)
    requires episode < |lengths|
    ensures |Layout(lengths)| == Start(lengths, |lengths|)
    ensures forall k :: 0 <= k < |Layout(lengths)| ==>
      (Layout(lengths)[k] == episode <==> Start(lengths, episode) <= k < Start(lengths, episode) + lengths[episode])
    ensures Start(lengths, episode) + lengths[episode] <= |Layout(lengths)|
  {
    var init, last := lengths[..|lengths| - 1], |lengths| - 1;
    assert lengths == init + [lengths[last]];
    LayoutRange(init);
    StartOfPrefix(init, [lengths[last]], last);
    StartsRise(lengths, episode + 1, |lengths|);
    StartOfPrefix(init, [lengths[last]], episode);
    if episode < last {
      LayoutFrames(init, episode);
    }
  }

  lemma {:induction false} LayoutRange(lengths: seq<nat>)
    ensures |Layout(lengths)| == Start(lengths, |lengths|)
    ensures forall k :: 0 <= k < |Layout(lengths)| ==> 0 <= Layout(lengths)[k] < |lengths|
  {
    if |lengths| > 0 {
      var init, last := lengths[..|lengths| - 1], |lengths| - 1;
      assert lengths == init + [lengths[last]];
      LayoutRange(init);
      StartOfPrefix(init, [lengths[last]], last);
    }
  }

  /** The scan of a laid out dataset finds the episode's whole range. */
  lemma FirstRunIsTheEpisode(lengths: seq<nat>, episode: nat, start: int, length: int)
    requires episode < |lengths| && IsFirstRun(Layout(lengths), episode, start, length)
    ensures length == lengths[episode] && (length > 0 ==> start == Start(lengths, episode))
  {
    LayoutFrames(lengths, episode);
    var frames, first := Layout(lengths), Start(lengths, episode);
    if lengths[episode] > 0 {
      assert frames[first] == episode && frames[first + lengths[episode] - 1] == episode;
    }
    if length > 0 {
      assert frames[start] == episode && frames[start + length - 1] == episode;
    }
  }

  predicate Says(cell: Cell, value: int)
  {
    cell.Given? ==> cell.value == value
  }

  /** Whatever the metadata says is so; parts of it may be missing or unreadable. */
  ghost predicate Truthful(source: Source, lengths: seq<nat>)
  {
    && source.frames == Layout(lengths)
    && EpisodeCount(source) == Some(|lengths|)
    && (source.rows.Some? ==>
          forall i {:trigger source.rows.value[i]} :: 0 <= i < |source.rows.value| && i < |lengths| ==>
            && Says(source.rows.value[i].fromIndex, Start(lengths, i))
            && Says(source.rows.value[i].toIndex, Start(lengths, i) + lengths[i])
            && Says(source.rows.value[i].length, lengths[i]))
    && (source.table.Some? ==>
          forall i {:trigger lengths[i]} :: 0 <= i < |lengths| ==>
            && Says(At(source.table.value.froms, i), Start(lengths, i))
            && Says(At(source.table.value.tos, i), Start(lengths, i) + lengths[i]))
  }

  /** A dataset whose rows state everything is one such. */
  lemma TruthfulExists(lengths: seq<nat>) returns (source: Source)
    ensures Truthful(source, lengths) && source.rows.Some? && |source.rows.value| == |lengths|
    ensures forall i :: 0 <= i < |lengths| ==> source.rows.value[i].length == Given(lengths[i])
  {
    var rows := seq(|lengths|, i requires 0 <= i < |lengths| =>
      Row(Given(Start(lengths, i)), Given(Start(lengths, i) + lengths[i]), Given(lengths[i])));
    source := Source(Some(|lengths|), Some(rows), None, Layout(lengths));
  }

  predicate Unlisted(source: Source, i: nat)
  {
    RowOf(source, i).Some? && RowOf(source, i).value.length.Absent?
  }

  /** The lengths are added up, all of them can be read, and one that matters is taken for zero. */
  ghost predicate Misled(source: Source, lengths: seq<nat>, episode: nat)
    requires episode < |lengths|
  {
    && AddsUp(source, episode) && Stated(source, episode).Some? && lengths[episode] > 0
    && exists i :: 0 <= i <= episode && Unlisted(source, i) && lengths[i] > 0
  }

  function Expected(lengths: seq<nat>, episode: nat): Resolution
    requires episode < |lengths|
  {
    if lengths[episode] == 0 then NoFrames else Found(Start(lengths, episode), lengths[episode])
  }

  lemma {:induction false} SumIsStart(source: Source, lengths: seq<nat>, episode: nat)
    requires Truthful(source, lengths) && episode <= |lengths| && SumBefore(source, episode).Some?
    ensures 0 <= SumBefore(source, episode).value <= Start(lengths, episode)
    ensures SumBefore(source, episode).value == Start(lengths, episode) <==>
      forall i :: 0 <= i < episode && Unlisted(source, i) ==> lengths[i] == 0
  {
    if episode > 0 {
      SumIsStart(source, lengths, episode - 1);
    }
  }

  /** On a laid out dataset with truthful metadata all four rungs, and the scan after any failure, give the episode's
      own range, unless the sum of lengths took a missing length for zero. */
  lemma RungsAgreeIff(source: Source, lengths: seq<nat>, episode: nat, resolution: Resolution)
    requires Truthful(source, lengths) && episode < |lengths| && Resolves(source, episode, resolution)
    ensures resolution == Expected(lengths, episode) <==> !Misled(source, lengths, episode)
  {
    match Stated(source, episode)
    case None =>
      LayoutFrames(lengths, episode);
      if resolution.Found? {
        FirstRunIsTheEpisode(lengths, episode, resolution.start, resolution.length);
      } else {
        FirstRunIsTheEpisode(lengths, episode, 0, 0);
      }
    case Some(_) =>
      if AddsUp(source, episode) {
        SumIsStart(source, lengths, episode);
      }
  }
}
