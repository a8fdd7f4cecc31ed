/** strands_robots/dataset_recorder.py: fitting the observed camera streams to the declared image columns. Names are
    bare, without the `observation.images.` prefix every one of them carries. */
module CameraColumns {
  import opened Options
  import opened Order
  import Text

  type Renaming = map<string, string>

  function Target(renaming: Renaming, name: string): string
  {
    if name in renaming then renaming[name] else name
  }

  /** `frame[target] = frame.pop(name)`, unless the name stays. */
  function Move<T>(frame: map<string, T>, renaming: Renaming, name: string): map<string, T>
    requires name in frame
  {
    if Target(renaming, name) == name then frame else (frame - {name})[Target(renaming, name) := frame[name]]
  }

  /** The names, each once, all of them in the frame. */
  ghost predicate Lists(names: seq<string>, keys: set<string>)
  {
    Distinct(names) && Elements(names) <= keys
  }

  lemma ListsTail(names: seq<string>, keys: set<string>, target: string)
    requires Lists(names, keys) && |names| > 0
    ensures Lists(names[1..], keys) && Lists(names[1..], keys - {names[0]} + {target})
    ensures names[0] in keys && names[0] !in Elements(names[1..])
      && Elements(names) == Elements(names[1..]) + {names[0]}
  {
    assert names[0] in Elements(names);
    assert forall i :: 0 <= i < |names[1..]| ==> names[1..][i] == names[i + 1];
  }

  /** One name after another: a later move sees what the earlier ones left. */
  ghost function MoveAll<T>(frame: map<string, T>, renaming: Renaming, names: seq<string>): map<string, T>
    requires Lists(names, frame.Keys)
    decreases |names|
  {
    if |names| == 0 then frame
    else
      ListsTail(names, frame.Keys, Target(renaming, names[0]));
      assert Lists(names[1..], Move(frame, renaming, names[0]).Keys) by {
        MoveKeys(frame, renaming, names[0]);
      }
      MoveAll(Move(frame, renaming, names[0]), renaming, names[1..])
  }

  lemma MoveKeys<T>(frame: map<string, T>, renaming: Renaming, name: string)
    requires name in frame
    ensures Move(frame, renaming, name).Keys == frame.Keys - {name} + {Target(renaming, name)}
    ensures |Move(frame, renaming, name)| <= |frame|
    ensures |Move(frame, renaming, name)| == |frame| <==>
      Target(renaming, name) == name || Target(renaming, name) !in frame
  {
    var after := Move(frame, renaming, name);
    assert after.Keys == frame.Keys - {name} + {Target(renaming, name)};
    assert |after| == |after.Keys| && |frame| == |frame.Keys|;
  }

  /** The caller's remap, applied over a snapshot of the frame's names in dictionary order. */
  method Remap<T>(frame: map<string, T>, renaming: Renaming, names: seq<string>) returns (out: map<string, T>)
    requires Lists(names, frame.Keys)
    ensures out == MoveAll(frame, renaming, names)
  {
    out := frame;
    for i := 0 to |names|
      invariant Lists(names[i..], out.Keys)
      invariant MoveAll(out, renaming, names[i..]) == MoveAll(frame, renaming, names)
    {
      ghost var rest := names[i..];
      assert rest[0] == names[i] && rest[1..] == names[i + 1..];
      ListsTail(rest, out.Keys, Target(renaming, names[i]));
      MoveKeys(out, renaming, names[i]);
      if Target(renaming, names[i]) != names[i] {
        out := (out - {names[i]})[Target(renaming, names[i]) := out[names[i]]];
      }
    }
  }

  /** No stream lands where another has landed, or where one still waits for its turn. */
  ghost predicate Undisturbed(renaming: Renaming, names: seq<string>)
  {
    forall i, j :: 0 <= i < j < |names| ==>
      Target(renaming, names[i]) != Target(renaming, names[j]) && Target(renaming, names[i]) != names[j]
  }

  /** Every image under the new name of its stream, all at once. */
  ghost predicate IsSimultaneous<T>(out: map<string, T>, frame: map<string, T>, renaming: Renaming)
  {
    && out.Keys == (set name | name in frame :: Target(renaming, name))
    && forall name :: name in frame ==> out[Target(renaming, name)] == frame[name]
  }

  /** `Undisturbed`, with names already `settled` that nothing may land on. */
  ghost predicate UndisturbedBeside(renaming: Renaming, names: seq<string>, settled: set<string>)
  {
    Undisturbed(renaming, names) && forall i :: 0 <= i < |names| ==> Target(renaming, names[i]) !in settled
  }

  lemma UndisturbedStep(renaming: Renaming, names: seq<string>, settled: set<string>)
    requires |names| > 0 && Distinct(names) && Elements(names) !! settled
    ensures UndisturbedBeside(renaming, names, settled) <==>
      && Target(renaming, names[0]) !in settled + Elements(names[1..])
      && UndisturbedBeside(renaming, names[1..], settled + {Target(renaming, names[0])})
  {
    var target, rest := Target(renaming, names[0]), names[1..];
    assert forall i :: 0 <= i < |rest| ==> rest[i] == names[i + 1];
    if target !in settled + Elements(rest) && UndisturbedBeside(renaming, rest, settled + {target}) {
      forall i, j | 0 <= i < j < |names|
        ensures Target(renaming, names[i]) != Target(renaming, names[j]) && Target(renaming, names[i]) != names[j]
      {
        assert names[j] == rest[j - 1];
        assert i > 0 ==> names[i] == rest[i - 1];
      }
      forall i | 0 <= i < |names| ensures Target(renaming, names[i]) !in settled {
        assert i > 0 ==> names[i] == rest[i - 1];
      }
    }
    if UndisturbedBeside(renaming, names, settled) {
      forall name | name in Elements(rest) ensures target != name {
        var j :| 0 <= j < |rest| && rest[j] == name;
        assert names[j + 1] == name;
      }
      forall i | 0 <= i < |rest| ensures Target(renaming, rest[i]) !in settled + {target} {
        assert rest[i] == names[i + 1];
      }
    }
  }

  /** What is settled, before and after the move of `first`, with `rest` still to come. */
  lemma SettledStep(keys: set<string>, first: string, rest: set<string>, target: string)
    requires first in keys && first !in rest && rest <= keys
    ensures target == first || target !in keys <==> target !in (keys - (rest + {first})) + rest
    ensures target !in rest ==> (keys - {first} + {target}) - rest == (keys - (rest + {first})) + {target}
  {
  }

  lemma {:induction false} LosslessBeside<T>(frame: map<string, T>, renaming: Renaming, names: seq<string>)
    requires Lists(names, frame.Keys)
    ensures |MoveAll(frame, renaming, names)| <= |frame|
    ensures |MoveAll(frame, renaming, names)| == |frame| <==>
      UndisturbedBeside(renaming, names, frame.Keys - Elements(names))
    decreases |names|
  {
    hide Move, Target, Lists, Undisturbed, UndisturbedBeside, Elements, Distinct;
    if |names| > 0 {
      var target, rest := Target(renaming, names[0]), names[1..];
      ListsTail(names, frame.Keys, target);
      ListsMeans(rest, frame.Keys);
      MoveKeys(frame, renaming, names[0]);
      LosslessBeside(Move(frame, renaming, names[0]), renaming, rest);
      ListsMeans(names, frame.Keys);
      UndisturbedStep(renaming, names, frame.Keys - Elements(names));
      SettledStep(frame.Keys, names[0], Elements(rest), target);
    } else {
      NobodyIsDisturbed(renaming, frame.Keys - Elements(names));
      assert names == [];
    }
  }

  lemma ListsMeans(names: seq<string>, keys: set<string>)
    requires Lists(names, keys)
    ensures Distinct(names) && Elements(names) <= keys
  {
  }

  lemma NobodyIsDisturbed(renaming: Renaming, settled: set<string>)
    ensures UndisturbedBeside(renaming, [], settled)
  {
  }

  /** No stream is lost in the remap exactly when none lands on another's old or new name in its way. */
  lemma LosslessIff<T>(frame: map<string, T>, renaming: Renaming, names: seq<string>)
    requires Lists(names, frame.Keys) && Elements(names) == frame.Keys
    ensures |MoveAll(frame, renaming, names)| == |frame| <==> Undisturbed(renaming, names)
  {
    LosslessBeside(frame, renaming, names);
    assert frame.Keys - Elements(names) == {};
  }

  ghost predicate Arrived<T>(out: map<string, T>, frame: map<string, T>, renaming: Renaming, names: seq<string>)
    requires Lists(names, frame.Keys)
  {
    var settled := frame.Keys - Elements(names);
    && (forall name :: name in out <==>
      name in settled || exists i :: 0 <= i < |names| && Target(renaming, names[i]) == name)
    && (forall name :: name in settled ==> name in out && out[name] == frame[name])
    && (forall i :: 0 <= i < |names| ==> out[Target(renaming, names[i])] == frame[names[i]])
  }

  lemma {:induction false} EachArrives<T>(frame: map<string, T>, renaming: Renaming, names: seq<string>)
    requires Lists(names, frame.Keys) && UndisturbedBeside(renaming, names, frame.Keys - Elements(names))
    ensures Arrived(MoveAll(frame, renaming, names), frame, renaming, names)
    decreases |names|
  {
    hide Move, MoveAll, Target, Lists, Undisturbed, UndisturbedBeside, Elements, Distinct, Arrived;
    if |names| == 0 {
      assert names == [];
      NothingToMove(frame, renaming);
    } else {
      var target, rest := Target(renaming, names[0]), names[1..];
      ListsTail(names, frame.Keys, target);
      var next := Move(frame, renaming, names[0]);
      MoveKeys(frame, renaming, names[0]);
      RestIsUndisturbed(frame, next, renaming, names);
      EachArrives(next, renaming, rest);
      FirstMove(frame, renaming, names);
      ArrivedStep(MoveAll(next, renaming, rest), frame, next, renaming, names);
    }
  }

  lemma NothingToMove<T>(frame: map<string, T>, renaming: Renaming)
    requires Lists([], frame.Keys)
    ensures Arrived(MoveAll(frame, renaming, []), frame, renaming, [])
  {
  }

  lemma RestIsUndisturbed<T>(frame: map<string, T>, next: map<string, T>, renaming: Renaming, names: seq<string>)
    requires Lists(names, frame.Keys) && |names| > 0 && names[0] in frame && names[0] !in Elements(names[1..])
    requires Elements(names) == Elements(names[1..]) + {names[0]}
    requires next.Keys == frame.Keys - {names[0]} + {Target(renaming, names[0])} && Lists(names[1..], next.Keys)
    requires UndisturbedBeside(renaming, names, frame.Keys - Elements(names))
    ensures Target(renaming, names[0]) !in (frame.Keys - Elements(names)) + Elements(names[1..])
    ensures next.Keys - Elements(names[1..]) == (frame.Keys - Elements(names)) + {Target(renaming, names[0])}
    ensures UndisturbedBeside(renaming, names[1..], next.Keys - Elements(names[1..]))
  {
    hide Target, Lists, Undisturbed, UndisturbedBeside, Elements, Distinct;
    ListsMeans(names, frame.Keys);
    UndisturbedStep(renaming, names, frame.Keys - Elements(names));
    SettledStep(frame.Keys, names[0], Elements(names[1..]), Target(renaming, names[0]));
  }

  lemma FirstMove<T>(frame: map<string, T>, renaming: Renaming, names: seq<string>)
    requires Lists(names, frame.Keys) && |names| > 0 && names[0] in frame
    requires Lists(names[1..], Move(frame, renaming, names[0]).Keys)
    ensures MoveAll(frame, renaming, names) == MoveAll(Move(frame, renaming, names[0]), renaming, names[1..])
  {
  }

  lemma ArrivedStep<T>(out: map<string, T>, frame: map<string, T>, next: map<string, T>, renaming: Renaming,
      names: seq<string>)
    requires |names| > 0 && Lists(names, frame.Keys) && Lists(names[1..], next.Keys) && names[0] in frame
    requires next == Move(frame, renaming, names[0]) && Arrived(out, next, renaming, names[1..])
    requires Target(renaming, names[0]) !in (frame.Keys - Elements(names)) + Elements(names[1..])
    requires next.Keys - Elements(names[1..]) == (frame.Keys - Elements(names)) + {Target(renaming, names[0])}
    ensures Arrived(out, frame, renaming, names)
  {
    var target, rest, settled := Target(renaming, names[0]), names[1..], frame.Keys - Elements(names);
    assert forall i :: 0 < i < |names| ==> names[i] == rest[i - 1];
    assert out[target] == next[target] == frame[names[0]];
    forall i | 0 < i < |names| ensures out[Target(renaming, names[i])] == frame[names[i]] {
      assert names[i] == rest[i - 1] && rest[i - 1] in Elements(rest);
    }
    forall name | name in out
      ensures name in settled || exists i :: 0 <= i < |names| && Target(renaming, names[i]) == name
    {
      if name !in settled && name != target {
        var i :| 0 <= i < |rest| && Target(renaming, rest[i]) == name;
        assert Target(renaming, names[i + 1]) == name;
      }
    }
  }

  /** An undisturbed remap is the simultaneous one; and where the new names are distinct, only an undisturbed one is. */
  lemma SimultaneousIff<T>(frame: map<string, T>, renaming: Renaming, names: seq<string>)
    requires Lists(names, frame.Keys) && Elements(names) == frame.Keys
    ensures Undisturbed(renaming, names) ==> IsSimultaneous(MoveAll(frame, renaming, names), frame, renaming)
    ensures DistinctTargets(renaming, names) ==>
      (IsSimultaneous(MoveAll(frame, renaming, names), frame, renaming) <==> Undisturbed(renaming, names))
  {
    hide MoveAll, Move, Undisturbed, IsSimultaneous;
    if Undisturbed(renaming, names) {
      UndisturbedIsSimultaneous(frame, renaming, names);
    }
    if IsSimultaneous(MoveAll(frame, renaming, names), frame, renaming) && DistinctTargets(renaming, names) {
      SimultaneousKeepsCount(MoveAll(frame, renaming, names), frame, renaming, names);
      LosslessIff(frame, renaming, names);
    }
  }

  lemma UndisturbedIsSimultaneous<T>(frame: map<string, T>, renaming: Renaming, names: seq<string>)
    requires Lists(names, frame.Keys) && Elements(names) == frame.Keys && Undisturbed(renaming, names)
    ensures IsSimultaneous(MoveAll(frame, renaming, names), frame, renaming)
  {
    hide MoveAll, Move, Target;
    var out, targets := MoveAll(frame, renaming, names), set name | name in frame :: Target(renaming, name);
    assert frame.Keys - Elements(names) == {};
    EachArrives(frame, renaming, names);
    forall name | name in frame ensures Target(renaming, name) in out && out[Target(renaming, name)] == frame[name] {
      var i :| 0 <= i < |names| && names[i] == name;
    }
    forall name | name in out ensures name in targets {
      var i :| 0 <= i < |names| && Target(renaming, names[i]) == name;
      assert names[i] in Elements(names);
    }
    assert out.Keys == targets;
  }

  lemma SimultaneousKeepsCount<T>(out: map<string, T>, frame: map<string, T>, renaming: Renaming, names: seq<string>)
    requires Lists(names, frame.Keys) && Elements(names) == frame.Keys
    requires IsSimultaneous(out, frame, renaming) && DistinctTargets(renaming, names)
    ensures |out| == |frame|
  {
    hide Target, DistinctTargets;
    DistinctTargetsCount(renaming, names);
    DistinctCount(names);
    var listed := set i | 0 <= i < |names| :: Target(renaming, names[i]);
    forall name | name in frame ensures Target(renaming, name) in listed {
      var i :| 0 <= i < |names| && names[i] == name;
    }
    forall i | 0 <= i < |names| ensures Target(renaming, names[i]) in out {
      assert names[i] in Elements(names);
    }
    assert out.Keys == listed;
    assert |out| == |out.Keys| && |frame| == |frame.Keys|;
  }

  ghost predicate DistinctTargets(renaming: Renaming, names: seq<string>)
  {
    forall i, j :: 0 <= i < j < |names| ==> Target(renaming, names[i]) != Target(renaming, names[j])
  }

  lemma {:induction false} DistinctTargetsCount(renaming: Renaming, names: seq<string>)
    requires DistinctTargets(renaming, names)
    ensures |set i | 0 <= i < |names| :: Target(renaming, names[i])| == |names|
  {
    hide Target;
    if |names| > 0 {
      var init := names[..|names| - 1];
      DistinctTargetsCount(renaming, init);
      var less := set i | 0 <= i < |init| :: Target(renaming, init[i]);
      assert (set i | 0 <= i < |names| :: Target(renaming, names[i])) == less + {Target(renaming, names[|names| - 1])};
    }
  }

  lemma DistinctCount(names: seq<string>)
    requires Distinct(names)
    ensures |Elements(names)| == |names|
  {
    DistinctTargetsCount(map[], names);
    assert Elements(names) == set i | 0 <= i < |names| :: Target(map[], names[i]);
  }

  /** `camera_schema_key`: a namespace separator becomes two underscores. */
  function Normalized(name: string): string
  {
    if |name| == 0 then "" else (if name[0] == '/' then "__" else [name[0]]) + Normalized(name[1..])
  }

  lemma {:induction false} NormalizedHasNoSlash(name: string)
    ensures '/' !in Normalized(name)
  {
    if |name| > 0 {
      NormalizedHasNoSlash(name[1..]);
    }
  }

  lemma {:induction false} SlashFreeStays(name: string)
    requires '/' !in name
    ensures Normalized(name) == name
  {
    if |name| > 0 {
      SlashFreeStays(name[1..]);
      assert name == [name[0]] + name[1..];
    }
  }

  /** `name.replace("/", "__")`: the pieces between the separators, joined again. */
  lemma {:induction false} NormalizedIsRejoined(name: string)
    ensures Normalized(name) == Text.Join(Text.Split(name, '/'), "__")
  {
    if |name| > 0 {
      NormalizedIsRejoined(name[1..]);
      var rest := Text.Split(name[1..], '/');
      if name[0] == '/' {
        assert Text.Split(name, '/')[1..] == rest;
        assert "" + "__" + Text.Join(rest, "__") == "__" + Text.Join(rest, "__");
      } else {
        var pieces := Text.Split(name, '/');
        assert pieces[0] == [name[0]] + rest[0] && pieces[1..] == rest[1..];
        if |rest| == 1 {
          assert Text.Join(pieces, "__") == pieces[0];
        } else {
          Regroup([name[0]], rest[0], "__", Text.Join(rest[1..], "__"));
        }
      }
    }
  }

  lemma Regroup(a: string, b: string, c: string, d: string)
    ensures (a + b) + c + d == a + (b + c + d)
  {
  }

  /** The second rename: a name whose normalised form is declared takes it. */
  function Normalizing(keys: set<string>, declared: set<string>): Renaming
  {
    map name | name in keys && Normalized(name) in declared :: Normalized(name)
  }

  /** A stream renamed onto another's name finds that one staying there. */
  lemma NormalizedOntoAnother(keys: set<string>, declared: set<string>, name: string, other: string)
    requires name in keys && other in keys && name != other && Target(Normalizing(keys, declared), name) == other
    ensures Target(Normalizing(keys, declared), other) == other
  {
    hide Normalized;
    NormalizedHasNoSlash(name);
    SlashFreeStays(other);
  }

  /** In whatever order the second rename goes, streams disturb each other only by sharing a normalised name. */
  lemma NormalizingIsUndisturbedIff(names: seq<string>, declared: set<string>)
    requires Distinct(names)
    ensures Undisturbed(Normalizing(Elements(names), declared), names) <==>
      DistinctTargets(Normalizing(Elements(names), declared), names)
  {
    hide Normalizing, Target;
    var keys := Elements(names);
    forall i, j | 0 <= i < j < |names| && Target(Normalizing(keys, declared), names[i]) == names[j]
      ensures Target(Normalizing(keys, declared), names[j]) == names[j]
    {
      assert names[i] in keys && names[j] in keys;
      NormalizedOntoAnother(keys, declared, names[i], names[j]);
    }
  }

  lemma {:induction false} LastMove<T>(frame: map<string, T>, renaming: Renaming, names: seq<string>, name: string)
    requires Lists(names + [name], frame.Keys) && Lists(names, frame.Keys)
    ensures name in MoveAll(frame, renaming, names)
    ensures MoveAll(frame, renaming, names + [name]) == Move(MoveAll(frame, renaming, names), renaming, name)
    decreases |names|
  {
    var all := names + [name];
    ListsTail(all, frame.Keys, Target(renaming, all[0]));
    MoveKeys(frame, renaming, all[0]);
    FirstMove(frame, renaming, all);
    if |names| > 0 {
      assert all[1..] == names[1..] + [name];
      ListsTail(names, frame.Keys, Target(renaming, names[0]));
      FirstMove(frame, renaming, names);
      hide MoveAll, Move, Lists;
      LastMove(Move(frame, renaming, names[0]), renaming, names[1..], name);
    }
  }

  lemma ListsMore(names: seq<string>, name: string, keys: set<string>)
    requires Lists(names, keys) && name in keys && name !in Elements(names)
    ensures Lists(names + [name], keys) && Elements(names + [name]) == Elements(names) + {name}
  {
    var all := names + [name];
    assert forall i :: 0 <= i < |names| ==> all[i] == names[i];
    assert forall i :: 0 <= i < |names| ==> names[i] in Elements(names);
    assert all[|names|] == name;
  }

  /** The frame's images under the declared columns, or nothing when a declared column stays empty. */
  ghost function Reconciled<T>(frame: map<string, T>, renaming: Renaming, names: seq<string>, order: seq<string>,
      declared: set<string>): Option<map<string, T>>
    requires Lists(names, frame.Keys) && Lists(order, MoveAll(frame, renaming, names).Keys)
  {
    var moved := MoveAll(frame, renaming, names);
    var final := MoveAll(moved, Normalizing(moved.Keys, declared), order);
    if declared <= final.Keys then Some(final - (final.Keys - declared)) else None
  }

  /** Remap, normalise in the order a set is walked, strip what is not declared, refuse what is not filled. */
  method Reconcile<T>(frame: map<string, T>, renaming: Renaming, names: seq<string>, declared: set<string>)
    returns (out: Option<map<string, T>>, ghost order: seq<string>)
    requires Lists(names, frame.Keys)
    ensures Lists(order, MoveAll(frame, renaming, names).Keys)
    ensures Elements(order) == MoveAll(frame, renaming, names).Keys
    ensures out == Reconciled(frame, renaming, names, order, declared)
    ensures out.Some? ==> out.value.Keys == declared
  {
    var moved := Remap(frame, renaming, names);
    ghost var normalizing := Normalizing(moved.Keys, declared);
    var pending := moved.Keys;
    var final := moved;
    order := [];
    while pending != {}
      invariant pending <= moved.Keys && Lists(order, moved.Keys) && Elements(order) == moved.Keys - pending
      invariant final == MoveAll(moved, normalizing, order)
    {
      hide MoveAll, Normalized, Lists, Elements, Distinct;
      var name :| name in pending;
      ListsMore(order, name, moved.Keys);
      LastMove(moved, normalizing, order, name);
      var target := Normalized(name);
      if target != name && target in declared {
        final := (final - {name})[target := final[name]];
      }
      order := order + [name];
      pending := pending - {name};
    }
    var stripped := final.Keys - declared;
    if declared - final.Keys != {} {
      out := None;
      assert !(declared <= final.Keys);
    } else {
      out := Some(final - stripped);
      assert declared <= final.Keys && (final - stripped).Keys == declared;
    }
  }

  /** Where a stream's image is to end. */
  function FinalName(renaming: Renaming, declared: set<string>, name: string): string
  {
    var target := Target(renaming, name);
    if Normalized(target) in declared then Normalized(target) else target
  }

  /** Each stream ends under its own name: none is in another's way in the remap, none shares a normalised name. */
  ghost predicate Separate(renaming: Renaming, declared: set<string>, names: seq<string>)
  {
    && Undisturbed(renaming, names)
    && forall i, j :: 0 <= i < j < |names| ==>
         FinalName(renaming, declared, names[i]) != FinalName(renaming, declared, names[j])
  }

  /** Separate streams: the frame is accepted exactly when every declared column has a stream, and then each column
      holds the image of its own stream, whatever order the set was walked in. */
  lemma ColumnsHoldTheirStreams<T>(frame: map<string, T>, renaming: Renaming, names: seq<string>, order: seq<string>,
      declared: set<string>)
    requires Lists(names, frame.Keys) && Elements(names) == frame.Keys
    requires Lists(order, MoveAll(frame, renaming, names).Keys)
      && Elements(order) == MoveAll(frame, renaming, names).Keys
    requires Separate(renaming, declared, names)
    ensures var out := Reconciled(frame, renaming, names, order, declared);
      && (out.Some? <==> forall column :: column in declared ==>
        exists name :: name in frame && FinalName(renaming, declared, name) == column)
      && (out.Some? ==> forall name :: name in frame && FinalName(renaming, declared, name) in declared ==>
            out.value[FinalName(renaming, declared, name)] == frame[name])
  {
    hide MoveAll, Lists, Elements, Distinct, Undisturbed, DistinctTargets, Separate, IsSimultaneous, FinalName;
    var moved := MoveAll(frame, renaming, names);
    var normalizing := Normalizing(moved.Keys, declared);
    SeparateIsUndisturbed(renaming, declared, names);
    SimultaneousIff(frame, renaming, names);
    ListsMeans(order, moved.Keys);
    SecondTargets(frame, moved, renaming, names, order, declared);
    NormalizingIsUndisturbedIff(order, declared);
    SimultaneousIff(moved, normalizing, order);
    hide Target, Normalizing;
    TwoSteps(MoveAll(moved, normalizing, order), moved, frame, renaming, declared);
  }

  lemma SeparateIsUndisturbed(renaming: Renaming, declared: set<string>, names: seq<string>)
    requires Separate(renaming, declared, names)
    ensures Undisturbed(renaming, names)
  {
  }

  /** Two simultaneous renames, one after the other, put each stream under its final name and nothing elsewhere. */
  lemma TwoSteps<T>(final: map<string, T>, moved: map<string, T>, frame: map<string, T>, renaming: Renaming,
      declared: set<string>)
    requires IsSimultaneous(moved, frame, renaming) && IsSimultaneous(final, moved, Normalizing(moved.Keys, declared))
    ensures forall name :: name in frame ==>
      FinalName(renaming, declared, name) in final && final[FinalName(renaming, declared, name)] == frame[name]
    ensures forall column :: column in final ==>
      exists name :: name in frame && FinalName(renaming, declared, name) == column
  {
    var normalizing := Normalizing(moved.Keys, declared);
    forall name | name in frame
      ensures Target(renaming, name) in moved
      ensures FinalName(renaming, declared, name) == Target(normalizing, Target(renaming, name))
    {
      FinalIsTwoTargets(moved.Keys, renaming, declared, name);
    }
    hide Target, Normalizing, FinalName;
    forall column | column in final
      ensures exists name :: name in frame && FinalName(renaming, declared, name) == column
    {
      var target :| target in moved && Target(normalizing, target) == column;
      var name :| name in frame && Target(renaming, name) == target;
      assert FinalName(renaming, declared, name) == column;
    }
  }

  lemma FinalIsTwoTargets(keys: set<string>, renaming: Renaming, declared: set<string>, name: string)
    requires Target(renaming, name) in keys
    ensures FinalName(renaming, declared, name) == Target(Normalizing(keys, declared), Target(renaming, name))
  {
    hide Normalized;
  }

  lemma SecondTargets<T>(frame: map<string, T>, moved: map<string, T>, renaming: Renaming, names: seq<string>,
      order: seq<string>, declared: set<string>)
    requires Elements(names) == frame.Keys && Distinct(order) && Elements(order) == moved.Keys
    requires Separate(renaming, declared, names) && IsSimultaneous(moved, frame, renaming)
    ensures DistinctTargets(Normalizing(moved.Keys, declared), order)
  {
    hide Normalizing, Undisturbed, FinalName, Target;
    forall i, j | 0 <= i < j < |order|
      ensures Target(Normalizing(moved.Keys, declared), order[i]) != Target(Normalizing(moved.Keys, declared), order[j])
    {
      var m := StreamBehind(frame, moved, renaming, names, order, i);
      var n := StreamBehind(frame, moved, renaming, names, order, j);
      assert order[i] in Elements(order) && order[j] in Elements(order);
      FinalIsTwoTargets(moved.Keys, renaming, declared, names[m]);
      FinalIsTwoTargets(moved.Keys, renaming, declared, names[n]);
      assert m < n ==> FinalName(renaming, declared, names[m]) != FinalName(renaming, declared, names[n]);
      assert n < m ==> FinalName(renaming, declared, names[n]) != FinalName(renaming, declared, names[m]);
    }
  }

  lemma StreamBehind<T>(frame: map<string, T>, moved: map<string, T>, renaming: Renaming, names: seq<string>,
      order: seq<string>, i: nat) returns (m: nat)
    requires Elements(names) == frame.Keys && Elements(order) == moved.Keys && i < |order|
    requires IsSimultaneous(moved, frame, renaming)
    ensures m < |names| && Target(renaming, names[m]) == order[i]
  {
    hide Target;
    assert order[i] in Elements(order);
    var name :| name in frame && Target(renaming, name) == order[i];
    assert name in Elements(names);
    m :| m < |names| && names[m] == name;
  }

  /** A map that swaps two streams loses one: with both declared the frame is refused, and with one declared that
      column is given the image of the wrong stream. */
  lemma SwapLosesAStream<T>(a: T, b: T)
    requires a != b
    ensures var swap, frame, names := map["l" := "r", "r" := "l"], map["l" := a, "r" := b], ["l", "r"];
      && Lists(names, frame.Keys) && Lists(["l"], MoveAll(frame, swap, names).Keys)
      && Reconciled(frame, swap, names, ["l"], {"l", "r"}) == None
      && Reconciled(frame, swap, names, ["l"], {"l"}) == Some(map["l" := a])
      && FinalName(swap, {"l"}, "r") == "l"
  {
    var swap, frame, names := map["l" := "r", "r" := "l"], map["l" := a, "r" := b], ["l", "r"];
    SlashFreeStays("l");
    SlashFreeStays("r");
    hide Normalized;
    var one := Move(frame, swap, "l");
    assert one == map["r" := a];
    var two := Move(one, swap, "r");
    assert two == map["l" := a];
    assert names[1..] == ["r"] && names[1..][1..] == [];
    FirstMove(frame, swap, names);
    FirstMove(one, swap, ["r"]);
    assert MoveAll(frame, swap, names) == two;
    forall declared: set<string> | declared == {"l"} || declared == {"l", "r"}
      ensures MoveAll(two, Normalizing(two.Keys, declared), ["l"]) == two
    {
      FirstMove(two, Normalizing(two.Keys, declared), ["l"]);
    }
    assert two - (two.Keys - {"l"}) == two;
  }
}
