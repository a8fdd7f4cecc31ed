/** scripts/check_whole_tree_graders.py: which names the repeated passes over a module's definitions bind. */
module BindingPasses {
  import opened Options
  import opened Paths
  import opened PathExpressions
  import opened GraderBindings

  // In the order the definitions stand: only how deep a path is decides what can be read.

  /** A path of so many parts, the parents of one, or nothing read. */
  datatype Depth = At(parts: nat) | Above(parts: nat) | Nowhere

  function DepthOf(reading: Reading): Depth
  {
    match reading
    case Known(path) => At(|path.parts|)
    case ParentsOf(path) => Above(|path.parts|)
    case Unknown => Nowhere
  }

  function Depths(bindings: Bindings): map<Key, nat>
  {
    map key | key in bindings :: |bindings[key].parts|
  }

  function DepthAt(depths: map<Key, nat>, key: Key): Depth
  {
    if key in depths then At(depths[key]) else Nowhere
  }

  /** How deep an expression's path is, from how deep the module's file and the bound names are. */
  function ReadDepth(e: Expr, file: nat, depths: map<Key, nat>): Depth
    decreases e, 0
  {
    match e
    case Name(id) => DepthAt(depths, Variable(id))
    case Call(func, args, _) =>
      if IsPathCall(e) then ReadFileDepth(args[0], file, depths)
      else if IsResolveCall(e) then ReadDepth(func.value, file, depths)
      else if IsBareCall(e) then DepthAt(depths, Helper(CalledName(func).value))
      else Nowhere
    case Attribute(value, attr) =>
      var base := ReadDepth(value, file, depths);
      if !base.At? then Nowhere
      else if attr == "parent" then At(if base.parts == 0 then 0 else base.parts - 1)
      else if attr == "parents" then Above(base.parts)
      else Nowhere
    case Subscript(value, index) =>
      var base := ReadDepth(value, file, depths);
      if base.Above? && index.Int? && index.number < base.parts then At(base.parts - 1 - index.number) else Nowhere
    case Div(left, right) =>
      var base := ReadDepth(left, file, depths);
      if base.At? && right.Str? then
        var segment := Parse(right.text);
        At(if segment.absolute then |segment.parts| else base.parts + |segment.parts|)
      else Nowhere
    case _ => Nowhere
  }

  function ReadFileDepth(e: Expr, file: nat, depths: map<Key, nat>): Depth
    decreases e, 1
  {
    if e == Name("__file__") then At(file)
    else if e.Attribute? && e.attr == "__file__" && e.value.Name? then DepthAt(depths, Variable(e.value.id))
    else if IsFileCall(e) && e.args[0].Name? then DepthAt(depths, Variable(e.args[0].id))
    else
      var read := ReadDepth(e, file, depths);
      if read.At? then read else Nowhere
  }

  lemma DepthsAt(bindings: Bindings)
    ensures forall key :: DepthAt(Depths(bindings), key) == DepthOf(Bound(bindings, key))
  {
  }

  lemma {:induction false} DepthIsRead(e: Expr, file: Path, bindings: Bindings)
    ensures DepthOf(Resolve(e, file, bindings)) == ReadDepth(e, |file.parts|, Depths(bindings))
    ensures DepthOf(ResolveModuleFile(e, file, bindings)) == ReadFileDepth(e, |file.parts|, Depths(bindings))
  {
    hide Parse, Depths;
    DepthsAt(bindings);
    match e
    case Attribute(value, _) => DepthIsRead(value, file, bindings);
    case Subscript(base, _) => DepthIsRead(base, file, bindings);
    case Div(left, _) => DepthIsRead(left, file, bindings);
    case Call(func, args, _) =>
      if IsPathCall(e) {
        DepthIsRead(args[0], file, bindings);
      } else if IsResolveCall(e) {
        DepthIsRead(func.value, file, bindings);
      }
    case _ =>
  }

  /** One definition: its name joins the reached ones when its value can be read from those. */
  function Reach(definition: Definition, file: nat, reached: map<Key, nat>): map<Key, nat>
  {
    var depth := ReadDepth(definition.value, file, reached);
    if depth.At? then reached[definition.Key() := depth.parts] else reached
  }

  function ReachPass(definitions: seq<Definition>, file: nat, reached: map<Key, nat>): map<Key, nat>
  {
    if |definitions| == 0 then reached
    else Reach(definitions[|definitions| - 1], file, ReachPass(definitions[..|definitions| - 1], file, reached))
  }

  function ReachPasses(count: nat, definitions: seq<Definition>, file: nat, reached: map<Key, nat>): map<Key, nat>
  {
    if count == 0 then reached else ReachPass(definitions, file, ReachPasses(count - 1, definitions, file, reached))
  }

  lemma {:induction false} PassReaches(definitions: seq<Definition>, file: Path, bindings: Bindings)
    ensures Depths(Pass(definitions, file, bindings)) == ReachPass(definitions, |file.parts|, Depths(bindings))
  {
    hide ReadDepth, Resolve;
    if |definitions| > 0 {
      var init, last := definitions[..|definitions| - 1], definitions[|definitions| - 1];
      PassReaches(init, file, bindings);
      var before := Pass(init, file, bindings);
      DepthIsRead(last.value, file, before);
      assert Depths(Read(last, file, before)) == Reach(last, |file.parts|, Depths(before));
    }
  }

  /** A name is bound after so many passes if and only if it is reached in as many sweeps over the definitions in the
      order they stand, each name joining when its value can be read from the names reached before it. */
  lemma {:induction false} BoundIffReached(count: nat, definitions: seq<Definition>, file: Path, bindings: Bindings)
    ensures Depths(Passes(count, definitions, file, bindings))
      == ReachPasses(count, definitions, |file.parts|, Depths(bindings))
    ensures forall key :: key in Passes(count, definitions, file, bindings) <==>
      key in ReachPasses(count, definitions, |file.parts|, Depths(bindings))
  {
    hide Pass, ReachPass;
    if count > 0 {
      BoundIffReached(count - 1, definitions, file, bindings);
      PassReaches(definitions, file, Passes(count - 1, definitions, file, bindings));
    }
    assert forall key :: key in Passes(count, definitions, file, bindings) <==>
      key in Depths(Passes(count, definitions, file, bindings));
  }

  // In whatever order they stand.

  /** Every binding is there in `others`. */
  ghost predicate Within(bindings: Bindings, others: Bindings)
  {
    forall key :: key in bindings ==> key in others && others[key] == bindings[key]
  }

  lemma ReadsWithin(e: Expr, file: Path, bindings: Bindings, others: Bindings)
    requires Within(bindings, others) && Resolve(e, file, bindings).Known?
    ensures Resolve(e, file, others) == Resolve(e, file, bindings)
  {
    ReadingCarries(e, file, bindings, others);
  }

  /** One round: every definition read from the same bindings. */
  function Round(definitions: seq<Definition>, file: Path, bindings: Bindings): Bindings
  {
    if |definitions| == 0 then bindings
    else
      var before, last := Round(definitions[..|definitions| - 1], file, bindings), definitions[|definitions| - 1];
      var reading := Resolve(last.value, file, bindings);
      if reading.Known? then before[last.Key() := reading.path] else before
  }

  /** The names that depend on the known ones through at most so many definitions. */
  function Rounds(count: nat, definitions: seq<Definition>, file: Path, known: Bindings): Bindings
  {
    if count == 0 then known else Round(definitions, file, Rounds(count - 1, definitions, file, known))
  }

  /** Each name is defined once, and none that is known already. */
  ghost predicate DefinedOnce(definitions: seq<Definition>, known: Bindings)
  {
    && (forall i :: 0 <= i < |definitions| ==> definitions[i].Key() !in known)
    && (forall i, j :: 0 <= i < j < |definitions| ==> definitions[i].Key() != definitions[j].Key())
  }

  /** What is bound to a defined name is what its definition reads as now. */
  predicate IsSupported(definition: Definition, file: Path, bindings: Bindings)
  {
    definition.Key() in bindings ==> Resolve(definition.value, file, bindings) == Known(bindings[definition.Key()])
  }

  ghost predicate Supported(definitions: seq<Definition>, file: Path, known: Bindings, bindings: Bindings)
  {
    && Within(known, bindings)
    && bindings.Keys <= known.Keys + KeysOf(definitions)
    && (forall i :: 0 <= i < |definitions| ==> IsSupported(definitions[i], file, bindings))
  }

  lemma KnownIsSupported(definitions: seq<Definition>, file: Path, known: Bindings)
    requires DefinedOnce(definitions, known)
    ensures Supported(definitions, file, known, known)
  {
  }

  /** Binding a name to what its definition reads as now only adds, and keeps everything supported. */
  lemma BindingKeepsSupport(definitions: seq<Definition>, file: Path, known: Bindings, bindings: Bindings, i: nat,
      from: Bindings)
    requires DefinedOnce(definitions, known) && Supported(definitions, file, known, bindings) && i < |definitions|
    requires Within(from, bindings) && Resolve(definitions[i].value, file, from).Known?
    ensures var more := bindings[definitions[i].Key() := Resolve(definitions[i].value, file, from).path];
      Within(bindings, more) && Supported(definitions, file, known, more)
  {
    hide Resolve;
    var key, path := definitions[i].Key(), Resolve(definitions[i].value, file, from).path;
    var more := bindings[key := path];
    ReadsWithin(definitions[i].value, file, from, bindings);
    assert IsSupported(definitions[i], file, bindings);
    assert Within(bindings, more);
    forall j | 0 <= j < |definitions| ensures IsSupported(definitions[j], file, more) {
      assert IsSupported(definitions[j], file, bindings);
      if j == i {
        ReadsWithin(definitions[i].value, file, bindings, more);
      } else if definitions[j].Key() in more {
        assert definitions[j].Key() in bindings;
        ReadsWithin(definitions[j].value, file, bindings, more);
      }
    }
  }

  lemma {:induction false} RoundKeepsSupport(definitions: seq<Definition>, file: Path, known: Bindings,
      bindings: Bindings, n: nat)
    requires DefinedOnce(definitions, known) && Supported(definitions, file, known, bindings) && n <= |definitions|
    ensures Within(bindings, Round(definitions[..n], file, bindings))
    ensures Supported(definitions, file, known, Round(definitions[..n], file, bindings))
  {
    hide Resolve, Supported, DefinedOnce;
    if n > 0 {
      RoundKeepsSupport(definitions, file, known, bindings, n - 1);
      assert definitions[..n][..n - 1] == definitions[..n - 1];
      if Resolve(definitions[n - 1].value, file, bindings).Known? {
        BindingKeepsSupport(definitions, file, known, Round(definitions[..n - 1], file, bindings), n - 1, bindings);
      }
    }
  }

  lemma {:induction false} PassKeepsSupport(definitions: seq<Definition>, file: Path, known: Bindings,
      bindings: Bindings, n: nat)
    requires DefinedOnce(definitions, known) && Supported(definitions, file, known, bindings) && n <= |definitions|
    ensures Within(bindings, Pass(definitions[..n], file, bindings))
    ensures Supported(definitions, file, known, Pass(definitions[..n], file, bindings))
  {
    hide Resolve, Supported, DefinedOnce;
    if n > 0 {
      PassKeepsSupport(definitions, file, known, bindings, n - 1);
      assert definitions[..n][..n - 1] == definitions[..n - 1];
      var before := Pass(definitions[..n - 1], file, bindings);
      if Resolve(definitions[n - 1].value, file, before).Known? {
        BindingKeepsSupport(definitions, file, known, before, n - 1, before);
      }
    }
  }

  /** A name of a round was there, or one definition gives it. */
  lemma {:induction false} RoundMember(definitions: seq<Definition>, file: Path, bindings: Bindings, key: Key)
    requires key in Round(definitions, file, bindings)
    ensures (key in bindings && Round(definitions, file, bindings)[key] == bindings[key])
      || exists i :: 0 <= i < |definitions| && definitions[i].Key() == key
           && Resolve(definitions[i].value, file, bindings) == Known(Round(definitions, file, bindings)[key])
  {
    hide Resolve;
    if |definitions| > 0 {
      var init, last := definitions[..|definitions| - 1], definitions[|definitions| - 1];
      if last.Key() == key && Resolve(last.value, file, bindings).Known? {
        assert definitions[|definitions| - 1].Key() == key;
      } else {
        RoundMember(init, file, bindings, key);
        assert forall i :: 0 <= i < |init| ==> init[i] == definitions[i];
      }
    }
  }

  lemma {:induction false} RoundGives(definitions: seq<Definition>, file: Path, bindings: Bindings, i: nat)
    requires i < |definitions| && Resolve(definitions[i].value, file, bindings).Known?
    ensures definitions[i].Key() in Round(definitions, file, bindings)
  {
    hide Resolve;
    if i < |definitions| - 1 {
      RoundGives(definitions[..|definitions| - 1], file, bindings, i);
    }
  }

  /** The same definitions in another order. */
  ghost predicate IsReordering(order: seq<Definition>, definitions: seq<Definition>)
  {
    && (forall i, j :: 0 <= i < j < |order| ==> order[i] != order[j])
    && (forall d :: d in order <==> d in definitions)
  }

  lemma ReorderedOnce(order: seq<Definition>, definitions: seq<Definition>, known: Bindings)
    requires IsReordering(order, definitions) && DefinedOnce(definitions, known)
    ensures DefinedOnce(order, known)
  {
    forall i | 0 <= i < |order| ensures order[i].Key() !in known {
      assert order[i] in definitions;
    }
    forall i, j | 0 <= i < j < |order| ensures order[i].Key() != order[j].Key() {
      assert order[i] in definitions && order[j] in definitions;
      var a :| 0 <= a < |definitions| && definitions[a] == order[i];
      var b :| 0 <= b < |definitions| && definitions[b] == order[j];
      assert a < b || b < a;
    }
  }

  /** What one definition reads as under fewer bindings, a pass binds. */
  lemma {:induction false} PassBinds(order: seq<Definition>, file: Path, known: Bindings, bindings: Bindings,
      fewer: Bindings, j: nat)
    requires DefinedOnce(order, known) && Supported(order, file, known, bindings) && Within(fewer, bindings)
    requires j < |order| && Resolve(order[j].value, file, fewer).Known?
    ensures order[j].Key() in Pass(order, file, bindings)
    ensures Pass(order, file, bindings)[order[j].Key()] == Resolve(order[j].value, file, fewer).path
  {
    hide Resolve;
    var path := Resolve(order[j].value, file, fewer).path;
    var after := Pass(order, file, bindings);
    PassKeepsSupport(order, file, known, bindings, j);
    ReadsWithin(order[j].value, file, fewer, Pass(order[..j], file, bindings));
    assert order[..j + 1][..j] == order[..j];
    assert Pass(order[..j + 1], file, bindings)[order[j].Key()] == path;
    BoundStays(order, file, known, bindings, j + 1, |order|);
    assert order[..|order|] == order;
  }

  lemma {:induction false} BoundStays(order: seq<Definition>, file: Path, known: Bindings, bindings: Bindings, m: nat,
      n: nat)
    requires DefinedOnce(order, known) && Supported(order, file, known, bindings) && m <= n <= |order|
    ensures Within(Pass(order[..m], file, bindings), Pass(order[..n], file, bindings))
  {
    hide Resolve, Supported, DefinedOnce;
    if m < n {
      BoundStays(order, file, known, bindings, m, n - 1);
      PassKeepsSupport(order, file, known, bindings, n - 1);
      assert order[..n][..n - 1] == order[..n - 1];
      var before := Pass(order[..n - 1], file, bindings);
      if Resolve(order[n - 1].value, file, before).Known? {
        BindingKeepsSupport(order, file, known, before, n - 1, before);
      }
    }
  }

  lemma {:induction false} RoundsAreSupported(count: nat, definitions: seq<Definition>, file: Path, known: Bindings)
    requires DefinedOnce(definitions, known)
    ensures Supported(definitions, file, known, Rounds(count, definitions, file, known))
    ensures count > 0 ==> Within(Rounds(count - 1, definitions, file, known), Rounds(count, definitions, file, known))
  {
    hide Supported, DefinedOnce, Round;
    KnownIsSupported(definitions, file, known);
    if count > 0 {
      RoundsAreSupported(count - 1, definitions, file, known);
      RoundKeepsSupport(definitions, file, known, Rounds(count - 1, definitions, file, known), |definitions|);
      assert definitions[..|definitions|] == definitions;
    }
  }

  lemma {:induction false} PassesAreSupported(count: nat, definitions: seq<Definition>, file: Path, known: Bindings)
    requires DefinedOnce(definitions, known)
    ensures Supported(definitions, file, known, Passes(count, definitions, file, known))
  {
    hide Supported, DefinedOnce, Pass;
    KnownIsSupported(definitions, file, known);
    if count > 0 {
      PassesAreSupported(count - 1, definitions, file, known);
      PassKeepsSupport(definitions, file, known, Passes(count - 1, definitions, file, known), |definitions|);
      assert definitions[..|definitions|] == definitions;
    }
  }

  /** In any order, so many passes bind at least what as many rounds give. */
  lemma {:induction false} RoundsWithinPasses(count: nat, order: seq<Definition>, definitions: seq<Definition>,
      file: Path, known: Bindings)
    requires DefinedOnce(definitions, known) && IsReordering(order, definitions)
    ensures Within(Rounds(count, definitions, file, known), Passes(count, order, file, known))
  {
    if count > 0 {
      RoundsWithinPasses(count - 1, order, definitions, file, known);
      ReorderedOnce(order, definitions, known);
      PassesAreSupported(count - 1, order, file, known);
      var fewer, bindings := Rounds(count - 1, definitions, file, known), Passes(count - 1, order, file, known);
      RoundWithinPass(order, definitions, file, known, fewer, bindings);
    }
  }

  lemma RoundWithinPass(order: seq<Definition>, definitions: seq<Definition>, file: Path, known: Bindings,
      fewer: Bindings, bindings: Bindings)
    requires DefinedOnce(order, known) && IsReordering(order, definitions)
    requires Supported(order, file, known, bindings) && Within(fewer, bindings)
    ensures Within(Round(definitions, file, fewer), Pass(order, file, bindings))
  {
    hide Resolve, Supported, DefinedOnce, Round, Pass;
    PassKeepsSupport(order, file, known, bindings, |order|);
    assert order[..|order|] == order;
    var round, pass := Round(definitions, file, fewer), Pass(order, file, bindings);
    forall key | key in round ensures key in pass && pass[key] == round[key] {
      RoundMember(definitions, file, fewer, key);
      if !(key in fewer && round[key] == fewer[key]) {
        var i :| 0 <= i < |definitions| && definitions[i].Key() == key
          && Resolve(definitions[i].value, file, fewer) == Known(round[key]);
        assert definitions[i] in order;
        var j :| 0 <= j < |order| && order[j] == definitions[i];
        PassBinds(order, file, known, bindings, fewer, j);
      }
    }
  }

  // The worst order: the deepest definition first.

  /** After how many rounds a name is there, `most + 1` for one that is not there after `most`. */
  function Rank(key: Key, most: nat, definitions: seq<Definition>, file: Path, known: Bindings): nat
  {
    if key !in Rounds(most, definitions, file, known) then most + 1
    else if most == 0 then 0
    else Rank(key, most - 1, definitions, file, known)
  }

  lemma {:induction false} RankIff(key: Key, n: nat, most: nat, definitions: seq<Definition>, file: Path,
      known: Bindings)
    requires DefinedOnce(definitions, known) && n <= most
    ensures key in Rounds(n, definitions, file, known) <==> Rank(key, most, definitions, file, known) <= n
    ensures Rank(key, most, definitions, file, known) <= most + 1
    decreases most
  {
    hide DefinedOnce, Round;
    if n < most {
      RankIff(key, n, most - 1, definitions, file, known);
      RoundsGrow(n, most, definitions, file, known);
    } else if most > 0 {
      RankIff(key, most - 1, most - 1, definitions, file, known);
    }
  }

  lemma {:induction false} RoundsGrow(n: nat, most: nat, definitions: seq<Definition>, file: Path, known: Bindings)
    requires DefinedOnce(definitions, known) && n <= most
    ensures Within(Rounds(n, definitions, file, known), Rounds(most, definitions, file, known))
    decreases most
  {
    hide DefinedOnce, Rounds;
    if n < most {
      RoundsGrow(n, most - 1, definitions, file, known);
      RoundsAreSupported(most, definitions, file, known);
    }
  }

  function Ranking(most: nat, definitions: seq<Definition>, file: Path, known: Bindings): Definition -> nat
  {
    (d: Definition) => Rank(d.Key(), most, definitions, file, known)
  }

  ghost predicate Falling(rank: Definition -> nat, order: seq<Definition>)
  {
    forall i, j :: 0 <= i < j < |order| ==> rank(order[i]) >= rank(order[j])
  }

  lemma {:induction false} InsertFalling(rank: Definition -> nat, order: seq<Definition>,
      d: Definition) returns (more: seq<Definition>)
    requires Falling(rank, order) && d !in order && forall i, j :: 0 <= i < j < |order| ==> order[i] != order[j]
    ensures Falling(rank, more) && forall i, j :: 0 <= i < j < |more| ==> more[i] != more[j]
    ensures forall x :: x in more <==> x == d || x in order
  {
    if |order| == 0 || rank(order[|order| - 1]) >= rank(d) {
      more := order + [d];
    } else {
      var init, last := order[..|order| - 1], order[|order| - 1];
      assert order == init + [last];
      var inner := InsertFalling(rank, init, d);
      more := inner + [last];
      forall i | 0 <= i < |inner| ensures rank(inner[i]) >= rank(last) && inner[i] != last {
        assert inner[i] in inner;
        assert inner[i] == d || inner[i] in init;
      }
    }
  }

  lemma {:induction false} SortFalling(rank: Definition -> nat,
      definitions: seq<Definition>) returns (order: seq<Definition>)
    requires forall i, j :: 0 <= i < j < |definitions| ==> definitions[i] != definitions[j]
    ensures IsReordering(order, definitions) && Falling(rank, order)
  {
    if |definitions| == 0 {
      order := [];
    } else {
      var init, last := definitions[..|definitions| - 1], definitions[|definitions| - 1];
      assert definitions == init + [last];
      var before := SortFalling(rank, init);
      assert last !in init;
      order := InsertFalling(rank, before, last);
    }
  }

  /** Deepest first, a pass over what `n` rounds give adds no more than one more round does. */
  lemma {:induction false} DeepestFirstIsSlow(n: nat, order: seq<Definition>, definitions: seq<Definition>, file: Path,
      known: Bindings, i: nat)
    requires DefinedOnce(definitions, known) && IsReordering(order, definitions) && i <= |order|
    requires forall a, b :: 0 <= a < b < |order| && order[a].Key() in Rounds(n + 1, definitions, file, known) ==>
      order[b].Key() in Rounds(n + 1, definitions, file, known)
    ensures var before, after := Rounds(n, definitions, file, known),
      Pass(order[..i], file, Rounds(n, definitions, file, known));
      && after.Keys <= Rounds(n + 1, definitions, file, known).Keys
      && ((forall a :: 0 <= a < i ==> order[a].Key() !in Rounds(n + 1, definitions, file, known)) ==> after == before)
  {
    hide Resolve, DefinedOnce;
    RoundsAreSupported(n + 1, definitions, file, known);
    if i > 0 {
      DeepestFirstIsSlow(n, order, definitions, file, known, i - 1);
      assert order[..i][..i - 1] == order[..i - 1];
      var d, rounds := order[i - 1], Rounds(n, definitions, file, known);
      if d.Key() !in Rounds(n + 1, definitions, file, known) && Resolve(d.value, file, rounds).Known? {
        assert d in definitions;
        var k :| 0 <= k < |definitions| && definitions[k] == d;
        RoundGives(definitions, file, rounds, k);
      }
    }
  }

  lemma {:induction false} SlowPasses(n: nat, most: nat, order: seq<Definition>, definitions: seq<Definition>,
      file: Path, known: Bindings)
    requires DefinedOnce(definitions, known) && IsReordering(order, definitions) && n <= most
    requires Falling(Ranking(most, definitions, file, known), order)
    ensures Passes(n, order, file, known) == Rounds(n, definitions, file, known)
  {
    hide Resolve, DefinedOnce, Falling, Rank, Pass, Round;
    if n > 0 {
      SlowPasses(n - 1, most, order, definitions, file, known);
      forall a, b | 0 <= a < b < |order| && order[a].Key() in Rounds(n, definitions, file, known)
        ensures order[b].Key() in Rounds(n, definitions, file, known)
      {
        RankIff(order[a].Key(), n, most, definitions, file, known);
        RankIff(order[b].Key(), n, most, definitions, file, known);
        FallsFrom(Ranking(most, definitions, file, known), order, a, b);
      }
      DeepestFirstIsSlow(n - 1, order, definitions, file, known, |order|);
      assert order[..|order|] == order;
      RoundsWithinPasses(n, order, definitions, file, known);
      SameBindings(Rounds(n, definitions, file, known), Passes(n, order, file, known));
    }
  }

  lemma FallsFrom(rank: Definition -> nat, order: seq<Definition>, a: nat, b: nat)
    requires Falling(rank, order) && a < b < |order|
    ensures rank(order[a]) >= rank(order[b])
  {
  }

  lemma SameBindings(bindings: Bindings, others: Bindings)
    requires Within(bindings, others) && others.Keys <= bindings.Keys
    ensures bindings == others
  {
  }

  /** The worst order there is: so many passes over it bind no more than as many rounds give. */
  lemma WorstOrder(most: nat, definitions: seq<Definition>, file: Path,
      known: Bindings) returns (order: seq<Definition>)
    requires DefinedOnce(definitions, known)
    ensures IsReordering(order, definitions)
    ensures Passes(most, order, file, known) == Rounds(most, definitions, file, known)
  {
    order := SortFalling(Ranking(most, definitions, file, known), definitions);
    SlowPasses(most, most, order, definitions, file, known);
  }

  /** A name is bound after so many passes whatever the order of the definitions, if and only if it depends on the known
      names through at most that many definitions. */
  lemma BoundInEveryOrderIff(count: nat, definitions: seq<Definition>, file: Path, known: Bindings, key: Key)
    requires DefinedOnce(definitions, known)
    ensures (forall order :: IsReordering(order, definitions) ==> key in Passes(count, order, file, known))
      <==> key in Rounds(count, definitions, file, known)
  {
    hide Rounds, Passes, DefinedOnce;
    forall order | IsReordering(order, definitions)
      ensures key in Rounds(count, definitions, file, known) ==> key in Passes(count, order, file, known)
    {
      RoundsWithinPasses(count, order, definitions, file, known);
    }
    var worst := WorstOrder(count, definitions, file, known);
  }

  /** Nothing outside a fixed point of the rounds is ever bound. */
  lemma {:induction false} PassStaysWithin(order: seq<Definition>, definitions: seq<Definition>, file: Path,
      bindings: Bindings, limit: Bindings)
    requires (forall d :: d in order ==> d in definitions) && Within(bindings, limit)
    requires forall i :: 0 <= i < |definitions| && Resolve(definitions[i].value, file, limit).Known? ==>
      definitions[i].Key() in limit && limit[definitions[i].Key()] == Resolve(definitions[i].value, file, limit).path
    ensures Within(Pass(order, file, bindings), limit)
  {
    hide Resolve;
    if |order| > 0 {
      var init, last := order[..|order| - 1], order[|order| - 1];
      PassStaysWithin(init, definitions, file, bindings, limit);
      var before := Pass(init, file, bindings);
      if Resolve(last.value, file, before).Known? {
        ReadsWithin(last.value, file, before, limit);
        assert last in definitions;
      }
    }
  }

  lemma {:induction false} PassesStayWithin(n: nat, order: seq<Definition>, definitions: seq<Definition>, file: Path,
      known: Bindings, limit: Bindings)
    requires (forall d :: d in order ==> d in definitions) && Within(known, limit)
    requires forall i :: 0 <= i < |definitions| && Resolve(definitions[i].value, file, limit).Known? ==>
      definitions[i].Key() in limit && limit[definitions[i].Key()] == Resolve(definitions[i].value, file, limit).path
    ensures Within(Passes(n, order, file, known), limit)
  {
    hide Resolve, Pass;
    if n > 0 {
      PassesStayWithin(n - 1, order, definitions, file, known, limit);
      PassStaysWithin(order, definitions, file, Passes(n - 1, order, file, known), limit);
    }
  }

  /** `n` passes bind no name that `count` passes do not. */
  predicate AddsNothing(n: nat, count: nat, order: seq<Definition>, file: Path, known: Bindings)
  {
    Passes(n, order, file, known).Keys <= Passes(count, order, file, known).Keys
  }

  /** So many passes bind, in whatever order the module declares its names, everything any number of passes would, if
      and only if one more round than that gives no further name. */
  lemma PassesSufficeIff(count: nat, definitions: seq<Definition>, file: Path, known: Bindings)
    requires DefinedOnce(definitions, known)
    ensures (forall order, n :: IsReordering(order, definitions) ==> AddsNothing(n, count, order, file, known))
      <==> Rounds(count + 1, definitions, file, known).Keys <= Rounds(count, definitions, file, known).Keys
  {
    var limit := Rounds(count, definitions, file, known);
    RoundsAreSupported(count, definitions, file, known);
    RoundsAreSupported(count + 1, definitions, file, known);
    if Rounds(count + 1, definitions, file, known).Keys <= limit.Keys {
      FixedPoint(definitions, file, known, limit);
      forall order, n | IsReordering(order, definitions)
        ensures AddsNothing(n, count, order, file, known)
      {
        PassesStayWithin(n, order, definitions, file, known, limit);
        RoundsWithinPasses(count, order, definitions, file, known);
      }
    } else {
      var worst := WorstOrder(count, definitions, file, known);
      RoundsWithinPasses(count + 1, worst, definitions, file, known);
      var key :| key in Rounds(count + 1, definitions, file, known) && key !in limit;
      assert key in Passes(count + 1, worst, file, known) && key !in Passes(count, worst, file, known);
      assert !AddsNothing(count + 1, count, worst, file, known);
    }
  }

  lemma FixedPoint(definitions: seq<Definition>, file: Path, known: Bindings, limit: Bindings)
    requires Supported(definitions, file, known, limit) && Round(definitions, file, limit).Keys <= limit.Keys
    ensures forall i :: 0 <= i < |definitions| && Resolve(definitions[i].value, file, limit).Known? ==>
      definitions[i].Key() in limit && limit[definitions[i].Key()] == Resolve(definitions[i].value, file, limit).path
  {
    hide Resolve, Round;
    forall i | 0 <= i < |definitions| && Resolve(definitions[i].value, file, limit).Known?
      ensures definitions[i].Key() in limit
        && limit[definitions[i].Key()] == Resolve(definitions[i].value, file, limit).path
    {
      RoundGives(definitions, file, limit, i);
      assert IsSupported(definitions[i], file, limit);
    }
  }

  function Calling(helper: string): Expr
  {
    Call(Name(helper), [], false)
  }

  /** Four helpers, each defined before the one it calls. */
  function FourHelpers(): seq<Definition>
  {
    [Answer("a", Calling("b")), Answer("b", Calling("c")), Answer("c", Calling("d")),
     Answer("d", Call(Name("Path"), [Name("__file__")], false))]
  }

  lemma PassOfFour(definitions: seq<Definition>, file: Path, bindings: Bindings)
    requires |definitions| == 4
    ensures Pass(definitions, file, bindings)
      == Read(definitions[3], file,
        Read(definitions[2], file, Read(definitions[1], file, Read(definitions[0], file, bindings))))
  {
    hide Read;
    var three, two, one := definitions[..3], definitions[..2], definitions[..1];
    assert three[..2] == two && two[..1] == one && one[..0] == [];
    assert Pass([], file, bindings) == bindings;
    assert Pass(one, file, bindings) == Read(definitions[0], file, bindings);
    assert Pass(two, file, bindings) == Read(definitions[1], file, Pass(one, file, bindings));
    assert Pass(three, file, bindings) == Read(definitions[2], file, Pass(two, file, bindings));
  }

  /** Not any order will do: all four answer with the file when run, and after three passes the first is not bound. */
  lemma ThreePassesMissTheFourth(env: Env)
    requires env.file.Plain() && env.answers.Keys == {"a", "b", "c", "d"}
    requires forall name :: name in env.answers ==> env.answers[name] == PathVal(env.file)
    ensures Consistent(env, FourHelpers()) && AllRegular(FourHelpers()) && Agree(map[], env)
    ensures Helper("a") !in Passes(3, FourHelpers(), env.file, map[])
    ensures Helper("a") in Passes(4, FourHelpers(), env.file, map[])
  {
    var all, file := FourHelpers(), env.file;
    assert EvalJoined([Name("__file__")], env) == Some(file);
    var empty: Bindings := map[];
    PassOfFour(all, file, empty);
    var first := Pass(all, file, empty);
    assert first == map[Helper("d") := file];
    PassOfFour(all, file, first);
    var second := Pass(all, file, first);
    assert second == map[Helper("d") := file, Helper("c") := file];
    PassOfFour(all, file, second);
    var third := Pass(all, file, second);
    assert third == map[Helper("d") := file, Helper("c") := file, Helper("b") := file];
    PassOfFour(all, file, third);
    hide Pass;
    assert Passes(1, all, file, empty) == first;
    assert Passes(2, all, file, empty) == second;
    assert Passes(3, all, file, empty) == third;
    assert Passes(4, all, file, empty) == Pass(all, file, third);
  }
}
