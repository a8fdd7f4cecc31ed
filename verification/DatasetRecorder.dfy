/** strands_robots/dataset_recorder.py: what one frame becomes, and the counters of a recording. */
module DatasetRecorder {
  import opened Options
  import opened Order
  import opened CameraColumns

  /** A value of an observation or an action: `None`, a number, a list, a numpy array, or anything else. */
  datatype Datum<T> =
    | Missing
    | Number(value: real)
    | List(items: seq<real>)
    | Array(image: T, flat: seq<real>, rank: nat)
    | Foreign
  {
    /** The numbers a value is written as; a `None` that got this far is written as zero. */
    function Columns(): seq<real>
    {
      match this
      case Missing => [0.0]
      case Number(value) => [value]
      case List(items) => items
      case Array(_, flat, _) => flat
      case Foreign => []
    }

    /** How many numbers a value holds. */
    function Width(): nat
    {
      match this
      case Missing => 1
      case Number(_) => 1
      case List(items) => |items|
      case Array(_, flat, _) => |flat|
      case Foreign => 0
    }

    /** The `i`-th number a value holds; nothing stands for zero. */
    function Nth(i: nat): real
      requires i < Width()
    {
      if Number? then value else if List? then items[i] else if Array? then flat[i] else 0.0
    }

    lemma WrittenAsHeld()
      ensures |Columns()| == Width() && forall i :: 0 <= i < Width() ==> Columns()[i] == Nth(i)
    {
    }
  }

  /** A dictionary, with the order its keys are walked in. */
  datatype Record<T> = Record(keys: seq<string>, values: map<string, Datum<T>>)
  {
    ghost predicate Valid()
    {
      Distinct(keys) && Elements(keys) == values.Keys
    }

    /** `record.get(name)`. */
    function Get(name: string): Datum<T>
    {
      if name in values then values[name] else Missing
    }
  }

  datatype Frame<T> = Frame(images: map<string, T>, state: Option<seq<real>>, action: Option<seq<real>>, task: string)

  datatype Refusal = NoSuchCamera | StateGap(missing: seq<string>) | ActionGap(missing: seq<string>) | CameraGap

  datatype Prepared<T> = Ready(frame: Frame<T>) | Refused(why: Refusal)

  /** What the dataset declares, and how the recorder was set up. */
  datatype Setup = Setup(
    cameras: set<string>, stateNames: seq<string>, stateSources: Option<seq<string>>, actionNames: seq<string>,
    renaming: Renaming, defaultTask: string, strict: bool, surface: Surface)

  /** How this LeRobot lets go of a buffered episode, if it does. */
  datatype Surface = ClearMethod | CreateMethod | NoSurface

  /** The arguments of one `add_frame`. */
  datatype Call<T> = Call(
    observation: Record<T>, action: Record<T>, task: Option<string>,
    cameras: Option<seq<string>>, required: Option<seq<string>>)

  // The columns of a vector.

  /** The concatenated columns of the named values. */
  function Flattened<T>(columns: seq<string>, record: Record<T>): seq<real>
  {
    if |columns| == 0 then []
    else Flattened(columns[..|columns| - 1], record) + record.Get(columns[|columns| - 1]).Columns()
  }

  /** Where the numbers of column `k` start. */
  function Offset<T>(columns: seq<string>, record: Record<T>, k: nat): nat
    requires k <= |columns|
  {
    if k == 0 then 0 else Offset(columns, record, k - 1) + record.Get(columns[k - 1]).Width()
  }

  /** From `start` on, the vector holds the numbers of column `k`. */
  ghost predicate StandsAt<T>(columns: seq<string>, record: Record<T>, vector: seq<real>, k: nat, start: nat)
    requires k < |columns|
  {
    var own := record.Get(columns[k]);
    start + own.Width() <= |vector| && forall i :: 0 <= i < own.Width() ==> vector[start + i] == own.Nth(i)
  }

  /** The numbers of every column, in the order of the columns, one column right after the other, and nothing else. */
  ghost predicate InOrder<T>(columns: seq<string>, record: Record<T>, vector: seq<real>)
  {
    && |vector| == Offset(columns, record, |columns|)
    && forall k :: 0 <= k < |columns| ==> StandsAt(columns, record, vector, k, Offset(columns, record, k))
  }

  lemma {:induction false} OffsetOfPrefix<T>(columns: seq<string>, record: Record<T>, n: nat, k: nat)
    requires k <= n <= |columns|
    ensures Offset(columns[..n], record, k) == Offset(columns, record, k)
  {
    if k > 0 {
      OffsetOfPrefix(columns, record, n, k - 1);
    }
  }

  lemma {:induction false} FlattenedIsInOrder<T>(columns: seq<string>, record: Record<T>)
    ensures InOrder(columns, record, Flattened(columns, record))
  {
    hide Datum.Columns, Datum.Width, Datum.Nth;
    if |columns| > 0 {
      var n := |columns| - 1;
      var init, own := columns[..n], record.Get(columns[n]).Columns();
      FlattenedIsInOrder(init, record);
      forall k | 0 <= k <= n ensures Offset(init, record, k) == Offset(columns, record, k) {
        OffsetOfPrefix(columns, record, n, k);
      }
      var before, all := Flattened(init, record), Flattened(columns, record);
      assert all == before + own;
      record.Get(columns[n]).WrittenAsHeld();
      LastStands(columns, record, before);
      hide Flattened, Offset;
      forall k | 0 <= k < n ensures StandsAt(columns, record, all, k, Offset(columns, record, k)) {
        assert StandsAt(init, record, before, k, Offset(init, record, k));
        KeptByMore(columns, record, before, own, k, Offset(columns, record, k));
      }
    }
  }

  lemma LastStands<T>(columns: seq<string>, record: Record<T>, before: seq<real>)
    requires |columns| > 0
    ensures StandsAt(columns, record, before + record.Get(columns[|columns| - 1]).Columns(), |columns| - 1, |before|)
  {
    hide Datum.Columns, Datum.Width, Datum.Nth;
    record.Get(columns[|columns| - 1]).WrittenAsHeld();
  }

  lemma KeptByMore<T>(columns: seq<string>, record: Record<T>, vector: seq<real>, more: seq<real>, k: nat, start: nat)
    requires k < |columns| && StandsAt(columns, record, vector, k, start)
    ensures StandsAt(columns, record, vector + more, k, start)
  {
    hide Datum.Width, Datum.Nth;
  }

  method Flatten<T>(columns: seq<string>, record: Record<T>) returns (values: seq<real>)
    ensures values == Flattened(columns, record) && InOrder(columns, record, values)
  {
    values := [];
    for i := 0 to |columns|
      invariant values == Flattened(columns[..i], record)
    {
      assert columns[..i + 1][..i] == columns[..i];
      values := values + record.Get(columns[i]).Columns();
    }
    assert columns[..|columns|] == columns;
    FlattenedIsInOrder(columns, record);
  }

  function Start(widths: seq<nat>, k: nat): nat
    requires k <= |widths|
  {
    if k == 0 then 0 else Start(widths, k - 1) + widths[k - 1]
  }

  /** The position declared for a column's `i`-th number holds it. */
  predicate IsHeld<T>(columns: seq<string>, record: Record<T>, widths: seq<nat>, vector: seq<real>, k: nat, i: nat)
    requires k < |columns| == |widths|
  {
    var own, at := record.Get(columns[k]), Start(widths, k) + i;
    i < own.Width() && at < |vector| && vector[at] == own.Nth(i)
  }

  /** The vector has the declared width, and every declared position holds its own column's number. */
  ghost predicate InPlace<T>(columns: seq<string>, record: Record<T>, widths: seq<nat>, vector: seq<real>)
    requires |widths| == |columns|
  {
    && |vector| == Start(widths, |widths|)
    && forall k, i :: 0 <= k < |columns| && 0 <= i < widths[k] ==> IsHeld(columns, record, widths, vector, k, i)
  }

  lemma {:induction false} OffsetsAreStarts<T>(columns: seq<string>, record: Record<T>, widths: seq<nat>, k: nat)
    requires |widths| == |columns| && k <= |columns|
    requires forall i :: 0 <= i < |columns| ==> record.Get(columns[i]).Width() == widths[i]
    ensures Offset(columns, record, k) == Start(widths, k)
  {
    if k > 0 {
      OffsetsAreStarts(columns, record, widths, k - 1);
    }
  }

  /** Columns that each have the numbers declared for them have more than those in all, unless none has more. */
  lemma {:induction false} StartsAreBelow<T>(columns: seq<string>, record: Record<T>, widths: seq<nat>, k: nat)
    requires |widths| == |columns| && k <= |columns|
    requires forall i :: 0 <= i < k ==> record.Get(columns[i]).Width() >= widths[i]
    ensures Start(widths, k) <= Offset(columns, record, k)
    ensures Start(widths, k) == Offset(columns, record, k) ==>
      forall i :: 0 <= i < k ==> record.Get(columns[i]).Width() == widths[i]
  {
    if k > 0 {
      StartsAreBelow(columns, record, widths, k - 1);
    }
  }

  lemma HeldIsThere<T>(columns: seq<string>, record: Record<T>, widths: seq<nat>, vector: seq<real>, k: nat)
    requires k < |columns| == |widths| && InPlace(columns, record, widths, vector)
    ensures record.Get(columns[k]).Width() >= widths[k]
  {
    if widths[k] > 0 {
      assert IsHeld(columns, record, widths, vector, k, widths[k] - 1);
    }
  }

  lemma StandingIsHeld<T>(columns: seq<string>, record: Record<T>, widths: seq<nat>, vector: seq<real>, k: nat, i: nat)
    requires k < |columns| == |widths| && i < record.Get(columns[k]).Width()
    requires StandsAt(columns, record, vector, k, Start(widths, k))
    ensures IsHeld(columns, record, widths, vector, k, i)
  {
    hide Datum.Width, Datum.Nth;
  }

  /** Every declared position holds its own column's number if and only if every column contributes exactly as many
      numbers as are declared for it: one, but for a source that is declared to expand. */
  lemma InPlaceIff<T>(columns: seq<string>, record: Record<T>, widths: seq<nat>)
    requires |widths| == |columns|
    ensures InPlace(columns, record, widths, Flattened(columns, record)) <==>
      forall k :: 0 <= k < |columns| ==> record.Get(columns[k]).Width() == widths[k]
  {
    hide Datum.Width, Datum.Nth, Flattened, StandsAt, IsHeld;
    var vector := Flattened(columns, record);
    FlattenedIsInOrder(columns, record);
    if InPlace(columns, record, widths, vector) {
      forall k | 0 <= k < |columns| ensures record.Get(columns[k]).Width() >= widths[k] {
        HeldIsThere(columns, record, widths, vector, k);
      }
      StartsAreBelow(columns, record, widths, |columns|);
    }
    if forall k :: 0 <= k < |columns| ==> record.Get(columns[k]).Width() == widths[k] {
      forall k | 0 <= k <= |columns| ensures Offset(columns, record, k) == Start(widths, k) {
        OffsetsAreStarts(columns, record, widths, k);
      }
      forall k, i | 0 <= k < |columns| && 0 <= i < widths[k] ensures IsHeld(columns, record, widths, vector, k, i) {
        StandingIsHeld(columns, record, widths, vector, k, i);
      }
    }
  }

  /** A frame without a gap whose vector has the declared width and the wrong numbers: the first column's value is of a
      kind the recorder passes over, and the second one's is a list of two. */
  lemma MisplacedColumns<T>(x: real, y: real)
    ensures var columns := ["a", "b"];
      var record: Record<T> := Record(columns, map["a" := Foreign, "b" := List([x, y])]);
      && Gaps(columns, record) == [] && Flattened(columns, record) == [x, y]
      && |Flattened(columns, record)| == Start([1, 1], 2)
      && !InPlace(columns, record, [1, 1], Flattened(columns, record))
      && Offset(columns, record, 1) == 0
  {
    var columns := ["a", "b"];
    var record: Record<T> := Record(columns, map["a" := Foreign, "b" := List([x, y])]);
    assert columns[..1] == ["a"] && columns[..1][..0] == [];
    assert Flattened([], record) == [] && Flattened(["a"], record) == [];
    assert |Gaps([], record)| == 0;
    assert Start([1, 1], 1) == 1;
    InPlaceIff(columns, record, [1, 1]);
    assert record.Get(columns[0]).Width() == 0;
  }

  /** The columns without a value, in schema order. */
  function Gaps<T>(columns: seq<string>, record: Record<T>): (missing: seq<string>)
    ensures |missing| == 0 <==> forall i :: 0 <= i < |columns| ==> record.Get(columns[i]) != Missing
    ensures forall name :: name in missing <==> name in columns && record.Get(name) == Missing
  {
    if |columns| == 0 then []
    else
      var last := columns[|columns| - 1];
      Gaps(columns[..|columns| - 1], record) + if record.Get(last) == Missing then [last] else []
  }

  /** Where no column is missing, every number of the vector is one its own column's value holds: no zero stands in for
      a value the record does not carry. */
  lemma NothingIsMadeUp<T>(columns: seq<string>, record: Record<T>)
    requires |Gaps(columns, record)| == 0
    ensures forall k :: 0 <= k < |columns| ==>
      && columns[k] in record.values && record.values[columns[k]] != Missing
      && StandsAt(columns, record, Flattened(columns, record), k, Offset(columns, record, k))
    ensures |Flattened(columns, record)| == Offset(columns, record, |columns|)
  {
    FlattenedIsInOrder(columns, record);
    forall k | 0 <= k < |columns| ensures columns[k] in record.values && record.values[columns[k]] != Missing {
      assert record.Get(columns[k]) != Missing;
    }
  }

  /** The columns of a vector: the ones already settled on, the declared ones, or this frame's own keys. */
  function Settled(cached: Option<seq<string>>, declared: seq<string>, present: set<string>): Option<seq<string>>
  {
    if cached.Some? then cached
    else if |declared| > 0 then Some(declared)
    else if present != {} then Some(Sorted(present))
    else None
  }

  function OrEmpty(columns: Option<seq<string>>): seq<string>
  {
    if columns.Some? then columns.value else []
  }

  // Cameras and state of an observation.

  predicate IsPicture<T>(datum: Datum<T>)
  {
    datum.Array? && datum.rank >= 2
  }

  /** The keys of the values that are images, in the record's order. */
  function PictureKeys<T>(keys: seq<string>, record: Record<T>): (pictures: seq<string>)
    ensures forall name :: name in pictures <==>
      name in keys && record.Get(name).Array? && record.Get(name).rank >= 2
  {
    if |keys| == 0 then []
    else
      var last := keys[|keys| - 1];
      assert keys == keys[..|keys| - 1] + [last];
      PictureKeys(keys[..|keys| - 1], record) + if IsPicture(record.Get(last)) then [last] else []
  }

  lemma {:induction false} PicturesInOrder<T>(a: seq<string>, b: seq<string>, record: Record<T>)
    ensures PictureKeys(a + b, record) == PictureKeys(a, record) + PictureKeys(b, record)
  {
    if |b| == 0 {
      assert a + b == a;
    } else {
      PicturesInOrder(a, b[..|b| - 1], record);
      assert (a + b)[..|a + b| - 1] == a + b[..|b| - 1];
    }
  }

  /** The cameras named, or else every image of the observation. */
  function CameraKeys<T>(call: Call<T>): (cameras: seq<string>)
    ensures call.cameras.Some? ==> cameras == call.cameras.value
    ensures call.cameras.None? ==> forall name :: name in cameras <==>
      name in call.observation.keys && call.observation.Get(name).Array? && call.observation.Get(name).rank >= 2
  {
    if call.cameras.Some? then call.cameras.value else PictureKeys(call.observation.keys, call.observation)
  }

  function StateKeys<T>(call: Call<T>): set<string>
  {
    set name | name in call.observation.values && name !in CameraKeys(call)
  }

  /** The names of the images put into the frame, in the order the dictionary gets them. */
  function ImageNames<T>(cameras: seq<string>, record: Record<T>): (names: seq<string>)
    ensures Distinct(names)
    ensures Elements(names) == set name | name in cameras && record.Get(name).Array?
  {
    if |cameras| == 0 then []
    else
      var init, last := ImageNames(cameras[..|cameras| - 1], record), cameras[|cameras| - 1];
      assert cameras == cameras[..|cameras| - 1] + [last];
      if record.Get(last).Array? && last !in init then
        assert Elements(init + [last]) == Elements(init) + {last} by {
          assert forall i :: 0 <= i < |init| ==> (init + [last])[i] == init[i];
          assert (init + [last])[|init|] == last;
        }
        init + [last]
      else
        assert last in init ==> last in Elements(init);
        init
  }

  /** Images are put into the frame in the cameras' order, each where its name first stands. */
  lemma {:induction false} NamesInOrder<T>(a: seq<string>, b: seq<string>, record: Record<T>)
    ensures ImageNames(a, record) <= ImageNames(a + b, record)
  {
    if |b| == 0 {
      assert a + b == a;
    } else {
      NamesInOrder(a, b[..|b| - 1], record);
      assert (a + b)[..|a + b| - 1] == a + b[..|b| - 1];
    }
  }

  function Images<T>(cameras: seq<string>, record: Record<T>): (images: map<string, T>)
    ensures forall name :: name in images <==> name in cameras && record.Get(name).Array?
    ensures forall name :: name in images ==> images[name] == record.Get(name).image
  {
    if |cameras| == 0 then map[]
    else
      var init, last := Images(cameras[..|cameras| - 1], record), cameras[|cameras| - 1];
      if record.Get(last).Array? then init[last := record.Get(last).image] else init
  }

  // One frame.

  function StateColumns<T>(setup: Setup, call: Call<T>, cached: Option<seq<string>>): Option<seq<string>>
  {
    if cached.None? && setup.stateSources.Some? then setup.stateSources
    else Settled(cached, setup.stateNames, StateKeys(call))
  }

  function ActionColumns<T>(setup: Setup, call: Call<T>, cached: Option<seq<string>>): Option<seq<string>>
  {
    Settled(cached, setup.actionNames, call.action.values.Keys)
  }

  /** A vector with no column is no vector. */
  function Vector<T>(columns: Option<seq<string>>, record: Record<T>): Option<seq<real>>
  {
    var values := Flattened(OrEmpty(columns), record);
    if |values| > 0 then Some(values) else None
  }

  method BuildVector<T>(carried: bool, columns: Option<seq<string>>,
      record: Record<T>) returns (vector: Option<seq<real>>)
    ensures vector == if carried then Vector(columns, record) else None
  {
    vector := None;
    if carried {
      var values := Flatten(OrEmpty(columns), record);
      if |values| > 0 {
        vector := Some(values);
      }
    }
  }

  function Scoped(required: Option<seq<string>>, columns: seq<string>): seq<string>
  {
    if required.None? then columns else Within(required.value, columns)
  }

  function Within(names: seq<string>, columns: seq<string>): (kept: seq<string>)
    ensures forall name :: name in kept <==> name in names && name in columns
  {
    if |names| == 0 then []
    else
      var last := names[|names| - 1];
      Within(names[..|names| - 1], columns) + if last in columns then [last] else []
  }

  function TaskText(given: Option<string>, fallback: string): string
  {
    if given.Some? && given.value != "" then given.value else if fallback != "" then fallback else "untitled"
  }

  function StateRefusal<T>(call: Call<T>, columns: Option<seq<string>>): Option<Refusal>
  {
    if call.required.None? && columns.Some? && |Gaps(columns.value, call.observation)| > 0
    then Some(StateGap(Gaps(columns.value, call.observation)))
    else None
  }

  function ActionRefusal<T>(call: Call<T>, columns: Option<seq<string>>): Option<Refusal>
  {
    var missing := Gaps(Scoped(call.required, OrEmpty(columns)), call.action);
    if |missing| > 0 then Some(ActionGap(missing)) else None
  }

  ghost function MovedImages<T>(setup: Setup, call: Call<T>): map<string, T>
  {
    var names, images := ImageNames(CameraKeys(call), call.observation), Images(CameraKeys(call), call.observation);
    assert Elements(names) == images.Keys;
    MoveAll(images, setup.renaming, names)
  }

  /** `order` walks the set of the camera names that the remap left. */
  ghost predicate Walks<T>(setup: Setup, call: Call<T>, order: seq<string>)
  {
    Lists(order, MovedImages(setup, call).Keys) && Elements(order) == MovedImages(setup, call).Keys
  }

  ghost function HandedImages<T>(setup: Setup, call: Call<T>, order: seq<string>): Option<map<string, T>>
    requires Walks(setup, call, order)
  {
    var names, images := ImageNames(CameraKeys(call), call.observation), Images(CameraKeys(call), call.observation);
    assert Elements(names) == images.Keys;
    Reconciled(images, setup.renaming, names, order, setup.cameras)
  }

  lemma OneMoreImage<T>(cameras: seq<string>, name: string, record: Record<T>)
    ensures var names, images, more := ImageNames(cameras, record), Images(cameras, record), cameras + [name];
      && ImageNames(more, record) == (if record.Get(name).Array? && name !in names then names + [name] else names)
      && Images(more, record) == (if record.Get(name).Array? then images[name := record.Get(name).image] else images)
  {
    assert (cameras + [name])[..|cameras|] == cameras;
  }

  method CollectImages<T>(call: Call<T>) returns (found: bool, names: seq<string>, images: map<string, T>)
    ensures found <==> !NamesAMissingCamera(call)
    ensures found ==> names == ImageNames(CameraKeys(call), call.observation)
    ensures found ==> images == Images(CameraKeys(call), call.observation)
  {
    var cameras := CameraKeys(call);
    names, images := [], map[];
    for i := 0 to |cameras|
      invariant forall j :: 0 <= j < i ==> cameras[j] in call.observation.values
      invariant names == ImageNames(cameras[..i], call.observation)
      invariant images == Images(cameras[..i], call.observation)
    {
      hide CameraKeys, ImageNames, Images;
      var name := cameras[i];
      if name !in call.observation.values {
        return false, names, images;
      }
      OneMoreImage(cameras[..i], name, call.observation);
      assert cameras[..i + 1] == cameras[..i] + [name];
      var datum := call.observation.Get(name);
      if datum.Array? {
        names := if name in names then names else names + [name];
        images := images[name := datum.image];
      }
    }
    assert cameras[..|cameras|] == cameras;
    found := true;
  }

  predicate NamesAMissingCamera<T>(call: Call<T>)
  {
    exists name :: name in CameraKeys(call) && name !in call.observation.values
  }

  function FirstRefusal<T>(setup: Setup, call: Call<T>, state: Option<seq<string>>,
      action: Option<seq<string>>): Option<Refusal>
  {
    if NamesAMissingCamera(call) then Some(NoSuchCamera)
    else if StateRefusal(call, StateColumns(setup, call, state)).Some?
      then StateRefusal(call, StateColumns(setup, call, state))
    else ActionRefusal(call, ActionColumns(setup, call, action))
  }

  function StateVector<T>(setup: Setup, call: Call<T>, state: Option<seq<string>>): Option<seq<real>>
  {
    if StateKeys(call) == {} then None else Vector(StateColumns(setup, call, state), call.observation)
  }

  function ActionVector<T>(setup: Setup, call: Call<T>, action: Option<seq<string>>): Option<seq<real>>
  {
    if call.action.values.Keys == {} then None else Vector(ActionColumns(setup, call, action), call.action)
  }

  /** What `add_frame` makes of its arguments, given the columns settled on before. */
  ghost function Prepare<T>(setup: Setup, call: Call<T>, order: seq<string>, state: Option<seq<string>>,
      action: Option<seq<string>>): Prepared<T>
    requires Walks(setup, call, order)
  {
    match FirstRefusal(setup, call, state, action)
    case Some(why) => Refused(why)
    case None =>
      match HandedImages(setup, call, order)
      case None => Refused(CameraGap)
      case Some(images) =>
        Ready(Frame(
          images, StateVector(setup, call, state), ActionVector(setup, call, action),
          TaskText(call.task, setup.defaultTask)))
  }

  /** The columns a vector is written in: the ones settled on before, else the declared ones, else the keys at hand. */
  ghost predicate AreColumns(columns: seq<string>, cached: Option<seq<string>>, declared: seq<string>,
    present: set<string>)
  {
    match cached
    case Some(settled) => columns == settled
    case None =>
      if |declared| > 0 then columns == declared
      else Ascending(columns) && Distinct(columns) && forall name :: name in columns <==> name in present
  }

  /** The columns of the state: those settled on, or the sources of a schema whose vectors expand, or as for any. */
  ghost predicate AreStateColumns<T>(columns: seq<string>, setup: Setup, call: Call<T>, cached: Option<seq<string>>)
  {
    var present := set name | name in call.observation.values && name !in CameraKeys(call);
    AreColumns(columns, if cached.Some? then cached else setup.stateSources, setup.stateNames, present)
  }

  lemma ColumnsAreMeant<T>(setup: Setup, call: Call<T>, state: Option<seq<string>>, action: Option<seq<string>>)
    ensures AreStateColumns(OrEmpty(StateColumns(setup, call, state)), setup, call, state)
    ensures AreColumns(OrEmpty(ActionColumns(setup, call, action)), action, setup.actionNames, call.action.values.Keys)
  {
    var present := set name | name in call.observation.values && name !in CameraKeys(call);
    assert present == StateKeys(call);
    SortedNames(present);
    SortedNames(call.action.values.Keys);
  }

  lemma SortedNames(names: set<string>)
    ensures forall name :: name in Sorted(names) <==> name in names
  {
    assert forall name :: name in Sorted(names) <==> name in Elements(Sorted(names));
  }

  /** A frame carries a vector exactly when its dictionary holds anything for it and some column adds a number. */
  lemma {:induction false} FlattenedIsSomething<T>(columns: seq<string>, record: Record<T>)
    ensures |Flattened(columns, record)| > 0 <==> exists name :: name in columns && record.Get(name).Width() > 0
  {
    hide Datum.Columns, Datum.Width;
    if |columns| > 0 {
      var init, last := columns[..|columns| - 1], columns[|columns| - 1];
      assert columns == init + [last];
      FlattenedIsSomething(init, record);
      record.Get(last).WrittenAsHeld();
    }
  }

  /** The vector is there exactly when `carried` and some column adds a number, and then it is the columns' numbers. */
  ghost predicate Carries<T>(vector: Option<seq<real>>, carried: bool, columns: seq<string>, record: Record<T>)
  {
    && (vector.Some? <==> carried && exists name :: name in columns && record.Get(name).Width() > 0)
    && (vector.Some? ==> InOrder(columns, record, vector.value))
  }

  lemma VectorCarries<T>(carried: bool, columns: Option<seq<string>>, record: Record<T>)
    ensures Carries(if carried then Vector(columns, record) else None, carried, OrEmpty(columns), record)
  {
    FlattenedIsSomething(OrEmpty(columns), record);
    FlattenedIsInOrder(OrEmpty(columns), record);
  }

  lemma VectorsAreCarried<T>(setup: Setup, call: Call<T>, state: Option<seq<string>>, action: Option<seq<string>>)
    ensures Carries(StateVector(setup, call, state),
      exists name :: name in call.observation.values && name !in CameraKeys(call),
      OrEmpty(StateColumns(setup, call, state)), call.observation)
    ensures Carries(ActionVector(setup, call, action), exists name :: name in call.action.values,
      OrEmpty(ActionColumns(setup, call, action)), call.action)
  {
    VectorCarries(StateKeys(call) != {}, StateColumns(setup, call, state), call.observation);
    VectorCarries(call.action.values.Keys != {}, ActionColumns(setup, call, action), call.action);
    assert (exists name :: name in call.observation.values && name !in CameraKeys(call)) <==> StateKeys(call) != {} by {
      assert forall name :: name in StateKeys(call) <==> name in call.observation.values && name !in CameraKeys(call);
    }
    assert (exists name :: name in call.action.values) <==> call.action.values.Keys != {} by {
      assert forall name :: name in call.action.values.Keys <==> name in call.action.values;
    }
    hide CameraKeys, StateColumns, ActionColumns, Carries, Vector;
  }

  /** Every frame handed over carries exactly the declared camera columns. It carries a state exactly when the
      observation holds a key that is no camera and some state column adds a number, and an action exactly when the
      action holds a key and some action column adds one; each is the numbers of the columns settled on, in order. Fed
      without a scope, no column is without a value, so no number is made up; with a scope, every column in it was
      issued. */
  lemma HandedFramesAreWhole<T>(setup: Setup, call: Call<T>, order: seq<string>, state: Option<seq<string>>,
      action: Option<seq<string>>) returns (stateColumns: seq<string>, actionColumns: seq<string>)
    requires Walks(setup, call, order) && Prepare(setup, call, order, state, action).Ready?
    ensures AreStateColumns(stateColumns, setup, call, state)
    ensures AreColumns(actionColumns, action, setup.actionNames, call.action.values.Keys)
    ensures var frame := Prepare(setup, call, order, state, action).frame;
      && frame.images.Keys == setup.cameras
      && Carries(frame.state, exists name :: name in call.observation.values && name !in CameraKeys(call),
           stateColumns, call.observation)
      && Carries(frame.action, exists name :: name in call.action.values, actionColumns, call.action)
      && (call.required.None? ==>
            && (forall name :: name in stateColumns ==> call.observation.Get(name) != Missing)
            && (forall name :: name in actionColumns ==> call.action.Get(name) != Missing))
      && (call.required.Some? ==>
            forall name :: name in call.required.value && name in actionColumns ==> call.action.Get(name) != Missing)
      && frame.task != "" && (call.task.Some? && call.task.value != "" ==> frame.task == call.task.value)
      && (call.task in {None, Some("")} ==> frame.task in {setup.defaultTask, "untitled"})
      && (call.task in {None, Some("")} && setup.defaultTask != "" ==> frame.task == setup.defaultTask)
  {
    stateColumns := OrEmpty(StateColumns(setup, call, state));
    actionColumns := OrEmpty(ActionColumns(setup, call, action));
    ColumnsAreMeant(setup, call, state, action);
    VectorsAreCarried(setup, call, state, action);
    hide MoveAll, Settled, ImageNames, Images, CameraKeys, StateKeys, Carries, StateVector, ActionVector;
    hide AreColumns, AreStateColumns, StateColumns, ActionColumns;
    assert |Gaps(Scoped(call.required, actionColumns), call.action)| == 0;
  }

  /** Where no two streams are in each other's way, each column of a handed frame holds the image of its own stream. */
  lemma HandedImagesAreTheStreams<T>(setup: Setup, call: Call<T>, order: seq<string>, state: Option<seq<string>>,
      action: Option<seq<string>>)
    requires Walks(setup, call, order) && Prepare(setup, call, order, state, action).Ready?
    requires Separate(setup.renaming, setup.cameras, ImageNames(CameraKeys(call), call.observation))
    ensures var images, frame := Images(CameraKeys(call), call.observation),
      Prepare(setup, call, order, state, action).frame;
      forall name :: name in images && FinalName(setup.renaming, setup.cameras, name) in setup.cameras ==>
        frame.images[FinalName(setup.renaming, setup.cameras, name)] == images[name]
  {
    hide FirstRefusal, StateVector, ActionVector, TaskText, CameraKeys, Separate, FinalName, MoveAll, Reconciled;
    var names, images := ImageNames(CameraKeys(call), call.observation), Images(CameraKeys(call), call.observation);
    assert Elements(names) == images.Keys;
    ColumnsHoldTheirStreams(images, setup.renaming, names, order, setup.cameras);
    ReconciledKeys(images, setup.renaming, names, order, setup.cameras);
  }

  lemma ReconciledKeys<T>(images: map<string, T>, renaming: Renaming, names: seq<string>, order: seq<string>,
      declared: set<string>)
    requires Lists(names, images.Keys) && Lists(order, MoveAll(images, renaming, names).Keys)
    ensures var out := Reconciled(images, renaming, names, order, declared); out.Some? ==> out.value.Keys == declared
  {
    hide MoveAll;
  }

  /** A frame is refused exactly when a camera it names is not there, or, fed without a scope, a state column has no
      value, or an action column has none that is in the scope, or a declared camera is left without an image. */
  lemma RefusedExactlyForAGap<T>(setup: Setup, call: Call<T>, order: seq<string>, state: Option<seq<string>>,
      action: Option<seq<string>>) returns (stateColumns: seq<string>, actionColumns: seq<string>)
    requires Walks(setup, call, order)
    ensures AreStateColumns(stateColumns, setup, call, state)
    ensures AreColumns(actionColumns, action, setup.actionNames, call.action.values.Keys)
    ensures Prepare(setup, call, order, state, action).Refused? <==>
      || (exists name :: name in CameraKeys(call) && name !in call.observation.values)
      || (call.required.None? && exists name :: name in stateColumns && call.observation.Get(name) == Missing)
      || (exists name :: name in actionColumns && (call.required.Some? ==> name in call.required.value)
            && call.action.Get(name) == Missing)
      || HandedImages(setup, call, order).None?
  {
    stateColumns := OrEmpty(StateColumns(setup, call, state));
    actionColumns := OrEmpty(ActionColumns(setup, call, action));
    ColumnsAreMeant(setup, call, state, action);
    hide MoveAll, Settled, ImageNames, Images, CameraKeys, StateKeys, AreColumns, AreStateColumns;
    hide HandedImages, StateVector, ActionVector, TaskText;
    StateRefusedIff(call, StateColumns(setup, call, state));
    ActionRefusedIff(call, ActionColumns(setup, call, action));
    hide StateColumns, ActionColumns, StateRefusal, ActionRefusal;
  }

  lemma StateRefusedIff<T>(call: Call<T>, columns: Option<seq<string>>)
    ensures StateRefusal(call, columns).Some? <==>
      call.required.None? && exists name :: name in OrEmpty(columns) && call.observation.Get(name) == Missing
  {
    if |Gaps(OrEmpty(columns), call.observation)| > 0 {
      assert Gaps(OrEmpty(columns), call.observation)[0] in Gaps(OrEmpty(columns), call.observation);
    }
  }

  lemma ActionRefusedIff<T>(call: Call<T>, columns: Option<seq<string>>)
    ensures ActionRefusal(call, columns).Some? <==>
      exists name :: name in OrEmpty(columns) && (call.required.Some? ==> name in call.required.value)
        && call.action.Get(name) == Missing
  {
    var missing := Gaps(Scoped(call.required, OrEmpty(columns)), call.action);
    if |missing| > 0 {
      assert missing[0] in missing;
    }
  }
}
