/** scripts/check_whole_tree_graders.py: walks inside functions that are read wrongly, in runs of those functions. */
module WrongWalks {
  import opened Options
  import opened Paths
  import opened PathExpressions
  import opened GraderBindings
  import opened BindingPasses
  import opened WalkScopes

  /** An assignment whose value the script cannot read. */
  function Unread(name: string): Definition
  {
    Assign(name, Other(0))
  }

  function ThisFile(): Expr
  {
    Call(Name("Path"), [Name("__file__")], false)
  }

  function Up(e: Expr): Expr
  {
    Attribute(e, "parent")
  }

  /** What an unread value is, in the runs below. */
  function Always(path: Path): nat -> Option<Val>
  {
    tag => Some(PathVal(path))
  }

  /** A name space holding these values, in which an unread one is `other`. */
  function Holding(file: Path, other: Path, names: map<string, Val>): Env
  {
    Blank(file).(names := names, other := Always(other))
  }

  lemma StartsNested(outer: Env, definitions: seq<Definition>)
    ensures Nested(outer, Entered(outer, definitions), definitions)
  {
    var run := [Entered(outer, definitions)];
    assert IsRun(run, definitions);
  }

  lemma StaysNested(outer: Env, inner: Env, later: Env, definitions: seq<Definition>)
    requires Nested(outer, inner, definitions) && Moves(definitions, inner, later)
    ensures Nested(outer, later, definitions)
  {
    hide Moves;
    var run :| IsRun(run, definitions) && run[0] == Entered(outer, definitions) && run[|run| - 1] == inner;
    assert IsRun(run + [later], definitions);
  }

  /** A function's next assignment. */
  lemma NextAssignment(file: Path, other: Path, outer: Env, names: map<string, Val>, definitions: seq<Definition>,
      i: nat,
      v: Val)
    requires i < |definitions| && Nested(outer, Holding(file, other, names), definitions)
    requires Eval(definitions[i].value, Holding(file, other, names)) == Some(v)
    ensures Nested(outer, Holding(file, other, names[definitions[i].name := v]), definitions)
  {
    hide Eval, Nested;
    var later := Holding(file, other, names[definitions[i].name := v]);
    assert later.(names := names) == Holding(file, other, names);
    assert Assigns(definitions[i], Holding(file, other, names), later);
    StaysNested(outer, Holding(file, other, names), later, definitions);
  }

  /** A function that starts with none of its names having a value, and its first assignment. */
  lemma FirstAssignment(file: Path, other: Path, names: map<string, Val>, definitions: seq<Definition>, i: nat, v: Val)
    requires i < |definitions|
    requires Eval(definitions[i].value, Holding(file, other, names - NamesOf(definitions))) == Some(v)
    ensures Nested(Holding(file, other, names),
      Holding(file, other, (names - NamesOf(definitions))[definitions[i].name := v]), definitions)
  {
    hide Eval, Nested, NamesOf;
    var outer := Holding(file, other, names);
    StartsNested(outer, definitions);
    NextAssignment(file, other, outer, names - NamesOf(definitions), definitions, i, v);
  }

  lemma ThisFileIs(file: Path, other: Path, names: map<string, Val>)
    ensures Eval(ThisFile(), Holding(file, other, names)) == Some(PathVal(file))
    ensures Eval(Up(ThisFile()), Holding(file, other, names)) == Some(PathVal(file.Parent()))
  {
    assert EvalJoined([Name("__file__")], Holding(file, other, names)) == Some(file);
  }

  /** One assignment of `root`, whatever it held outside. */
  lemma RootNests(file: Path, other: Path, names: map<string, Val>, value: Expr, v: Val)
    requires names.Keys <= {"root"} && Eval(value, Holding(file, other, map[])) == Some(v)
    ensures Nested(Holding(file, other, names), Holding(file, other, map["root" := v]), [Assign("root", value)])
  {
    hide Eval, Nested;
    var definitions := [Assign("root", value)];
    assert definitions[0] in definitions && definitions[0].name == "root";
    assert "root" in NamesOf(definitions);
    assert names - NamesOf(definitions) == map[];
    FirstAssignment(file, other, names, definitions, 0, v);
  }

  /** The module's binding wins over a function that assigns the name anew. */
  lemma ModuleNameWins(file: Path, other: Path)
    requires file.Plain() && other != file
    ensures var bindings, chain := map[Variable("root") := file], [[Unread("root")]];
      var envs := [Holding(file, other, map["root" := PathVal(file)]),
        Holding(file, other, map["root" := PathVal(other)])];
      && ChainIsRegular(chain) && AllNested(envs, chain) && Agree(bindings, envs[0])
      && !Fits(WalkReading(Name("root"), chain, file, bindings), Eval(Name("root"), envs[1]))
  {
    hide Nested;
    RootNests(file, other, map["root" := PathVal(file)], Other(0), PathVal(other));
  }

  lemma PassOfOne(definition: Definition, file: Path, bindings: Bindings)
    ensures Pass([definition], file, bindings) == Read(definition, file, bindings)
  {
    hide Read;
    assert [definition][..0] == [];
    assert Pass([], file, bindings) == bindings;
  }

  /** Three passes over one function's names. */
  lemma ThreePasses(definitions: seq<Definition>, file: Path, bindings: Bindings)
    ensures Passes(3, definitions, file, bindings)
      == Pass(definitions, file, Pass(definitions, file, Pass(definitions, file, bindings)))
  {
    hide Pass;
    assert Passes(1, definitions, file, bindings) == Pass(definitions, file, bindings);
    assert Passes(2, definitions, file, bindings) == Pass(definitions, file, Passes(1, definitions, file, bindings));
  }

  lemma EnclosingTwo(outer: seq<Definition>, inner: seq<Definition>, file: Path, scope: Bindings)
    ensures Enclosing([outer, inner], file, scope) == Passes(3, inner, file, Passes(3, outer, file, scope))
  {
    hide Passes;
    assert [outer, inner][..1] == [outer] && [outer][..0] == [];
    assert Enclosing([], file, scope) == scope;
    assert Enclosing([outer], file, scope) == Passes(3, outer, file, scope);
  }

  lemma RootIsRead(value: Expr, path: Path, file: Path)
    requires forall bindings :: Resolve(value, file, bindings) == Known(path)
    ensures Passes(3, [Assign("root", value)], file, map[]) == map[Variable("root") := path]
  {
    hide Resolve;
    var none: Bindings := map[];
    var once := none[Variable("root") := path];
    var definition := Assign("root", value);
    ThreePasses([definition], file, none);
    PassOfOne(definition, file, none);
    PassOfOne(definition, file, once);
    assert once[Variable("root") := path] == once;
  }

  /** Four names, each visited before the one it depends on; the last is an outer function's assigned anew. */
  function FourLocals(): seq<Definition>
  {
    [Assign("far", Up(Name("near"))), Assign("near", Up(Name("here"))), Assign("here", Up(Name("root"))),
     Assign("root", ThisFile())]
  }

  lemma UpIsRead(name: string, base: string, file: Path, bindings: Bindings)
    ensures Read(Assign(name, Up(Name(base))), file, bindings)
      == if Variable(base) in bindings then bindings[Variable(name) := bindings[Variable(base)].Parent()] else bindings
  {
    assert Resolve(Name(base), file, bindings) == Bound(bindings, Variable(base));
  }

  lemma FileIsRead(name: string, file: Path, bindings: Bindings)
    ensures Read(Assign(name, ThisFile()), file, bindings) == bindings[Variable(name) := file]
    ensures Read(Assign(name, Up(ThisFile())), file, bindings) == bindings[Variable(name) := file.Parent()]
  {
  }

  /** One pass over the four, from whatever the names it visits are bound to. */
  lemma PassOfLocals(file: Path, before: Bindings, after: Bindings)
    requires Variable("root") in before
    requires var far, near, here, root := Variable("far"), Variable("near"), Variable("here"), Variable("root");
      var one := if near in before then before[far := before[near].Parent()] else before;
      var two := if here in before then one[near := before[here].Parent()] else one;
      after == two[here := before[root].Parent()][root := file]
    ensures Pass(FourLocals(), file, before) == after
  {
    hide Path.Parent, Read;
    var all := FourLocals();
    PassOfFour(all, file, before);
    UpIsRead("far", "near", file, before);
    var one := Read(all[0], file, before);
    UpIsRead("near", "here", file, one);
    var two := Read(all[1], file, one);
    UpIsRead("here", "root", file, two);
    FileIsRead("root", file, Read(all[2], file, two));
  }

  lemma FourLocalsAreRead(file: Path, start: Path)
    ensures Passes(3, FourLocals(), file, map[Variable("root") := start])
      == map[Variable("root") := file, Variable("here") := file.Parent(), Variable("near") := file.Parent().Parent(),
             Variable("far") := start.Parent().Parent().Parent()]
  {
    hide Path.Parent, Pass, FourLocals;
    var once := map[Variable("root") := start];
    var twice := map[Variable("root") := file, Variable("here") := start.Parent()];
    var thrice := map[Variable("root") := file, Variable("here") := file.Parent(),
      Variable("near") := start.Parent().Parent()];
    ThreePasses(FourLocals(), file, once);
    PassOfLocals(file, once, twice);
    PassOfLocals(file, twice, thrice);
    PassOfLocals(file, thrice,
      thrice[Variable("near") := file.Parent().Parent()][Variable("far") := start.Parent().Parent().Parent()]);
  }

  lemma FourKeys()
    ensures KeysOf(FourLocals()) == {Variable("far"), Variable("near"), Variable("here"), Variable("root")}
  {
    var all := FourLocals();
    assert all[0] in all && all[1] in all && all[2] in all && all[3] in all;
  }

  /** So does an outer function's, over an inner one's that cannot be read. */
  lemma OuterNameStays(file: Path, other: Path)
    requires file.Plain() && other != file
    ensures var bindings, chain := map[], [[Assign("root", ThisFile())], [Unread("root")]];
      var envs := [Holding(file, other, map[]), Holding(file, other, map["root" := PathVal(file)]),
                   Holding(file, other, map["root" := PathVal(other)])];
      && ChainIsRegular(chain) && AllNested(envs, chain) && Agree(bindings, envs[0])
      && !Fits(WalkReading(Name("root"), chain, file, bindings), Eval(Name("root"), envs[2]))
  {
    hide Nested, Passes;
    var outer, inner := [Assign("root", ThisFile())], [Unread("root")];
    var none: Bindings := map[];
    var once := none[Variable("root") := file];
    ThisFileIs(file, other, map[]);
    RootNests(file, other, map[], ThisFile(), PathVal(file));
    RootNests(file, other, map["root" := PathVal(file)], Other(0), PathVal(other));
    RootIsRead(ThisFile(), file, file);
    EnclosingTwo(outer, inner, file, none);
    ThreePasses(inner, file, once);
    PassOfOne(inner[0], file, once);
  }

  /** The names of the four locals as a function assigns them, the last one written first. */
  function LocalsOf(file: Path, up: Path): map<string, Val>
  {
    map["root" := PathVal(file)]["here" := PathVal(up)]["near" := PathVal(up.Parent())]
      ["far" := PathVal(up.Parent().Parent())]
  }

  lemma LocalsNest(file: Path, up: Path)
    requires up == file.Parent()
    ensures AreLocals(FourLocals())
    ensures Nested(Holding(file, file, map["root" := PathVal(up)]), Holding(file, file, LocalsOf(file, up)),
      FourLocals())
  {
    hide Nested, Path.Parent;
    var all, outer := FourLocals(), Holding(file, file, map["root" := PathVal(up)]);
    assert all[3] in all && "root" in NamesOf(all);
    assert map["root" := PathVal(up)] - NamesOf(all) == map[];
    var one: map<string, Val> := map["root" := PathVal(file)];
    var two := one["here" := PathVal(up)];
    var three := two["near" := PathVal(up.Parent())];
    ThisFileIs(file, file, map[]);
    FirstAssignment(file, file, map["root" := PathVal(up)], all, 3, PathVal(file));
    UpIs(file, "root", file, one);
    NextAssignment(file, file, outer, one, all, 2, PathVal(up));
    UpIs(file, "here", up, two);
    NextAssignment(file, file, outer, two, all, 1, PathVal(up.Parent()));
    UpIs(file, "near", up.Parent(), three);
    NextAssignment(file, file, outer, three, all, 0, PathVal(up.Parent().Parent()));
  }

  lemma UpIs(file: Path, name: string, path: Path, names: map<string, Val>)
    requires name in names && names[name] == PathVal(path) && name != "__file__"
    ensures Eval(Up(Name(name)), Holding(file, file, names)) == Some(PathVal(path.Parent()))
  {
    assert Eval(Name(name), Holding(file, file, names)) == Some(PathVal(path));
  }

  /** Even where every name can be read, three passes can leave one reading an outer function's value. */
  lemma OuterValueOutlives(file: Path)
    requires file.Plain() && |file.parts| > 3
    ensures var bindings, chain := map[], [[Assign("root", Up(ThisFile()))], FourLocals()];
      var envs := [Holding(file, file, map[]), Holding(file, file, map["root" := PathVal(file.Parent())]),
                   Holding(file, file, LocalsOf(file, file.Parent()))];
      && ChainIsRegular(chain) && AllNested(envs, chain) && Agree(bindings, envs[0])
      && !Fits(WalkReading(Name("far"), chain, file, bindings), Eval(Name("far"), envs[2]))
  {
    hide Nested, FourLocals, Passes;
    var outer, up := [Assign("root", Up(ThisFile()))], file.Parent();
    LocalsNest(file, up);
    ThisFileIs(file, file, map[]);
    RootNests(file, file, map[], Up(ThisFile()), PathVal(up));
    RootIsRead(Up(ThisFile()), up, file);
    EnclosingTwo(outer, FourLocals(), file, map[]);
    FourLocalsAreRead(file, up);
    assert |up.Parent().Parent().Parent().parts| < |up.Parent().Parent().parts|;
  }

  function RootTwice(): seq<Definition>
  {
    [Assign("root", ThisFile()), Assign("root", Up(ThisFile()))]
  }

  lemma RootTwiceIsRead(file: Path)
    ensures Enclosing([RootTwice()], file, map[]) == map[Variable("root") := file.Parent()]
  {
    var all, none: Bindings := RootTwice(), map[];
    forall bindings: Bindings
      ensures Pass(all, file, bindings) == bindings[Variable("root") := file.Parent()]
    {
      assert all[..1] == [all[0]];
      PassOfOne(all[0], file, bindings);
      FileIsRead("root", file, bindings);
      FileIsRead("root", file, bindings[Variable("root") := file]);
    }
    ThreePasses(all, file, none);
    assert [all][..0] == [];
    assert Enclosing([], file, none) == none;
  }

  /** Where one function assigns a name twice, the last assignment is read, and a walk before it goes elsewhere. */
  lemma EarlierValueIsWalked(file: Path)
    requires file.Plain() && |file.parts| > 0
    ensures var bindings, chain := map[], [RootTwice()];
      var envs := [Holding(file, file, map[]), Holding(file, file, map["root" := PathVal(file)])];
      && ChainIsRegular(chain) && AllNested(envs, chain) && Agree(bindings, envs[0])
      && !Fits(WalkReading(Name("root"), chain, file, bindings), Eval(Name("root"), envs[1]))
  {
    hide Nested, Enclosing;
    var none: map<string, Val> := map[];
    assert none - NamesOf(RootTwice()) == none;
    ThisFileIs(file, file, none);
    FirstAssignment(file, file, none, RootTwice(), 0, PathVal(file));
    RootTwiceIsRead(file);
  }

  function HelperTwice(): seq<Definition>
  {
    [Answer("root", ThisFile()), Answer("root", Up(ThisFile()))]
  }

  lemma HelperTwiceIsRead(file: Path)
    ensures AllRegular(HelperTwice())
    ensures Passes(3, HelperTwice(), file, map[]) == map[Helper("root") := file.Parent()]
  {
    var all, none: Bindings := HelperTwice(), map[];
    forall bindings: Bindings
      ensures Pass(all, file, bindings) == bindings[Helper("root") := file.Parent()]
    {
      assert all[..1] == [all[0]];
      PassOfOne(all[0], file, bindings);
    }
    hide Pass;
    ThreePasses(all, file, none);
  }

  /** Where two classes declare a helper of one name, the one declared last answers for both. */
  lemma SharedHelperName(file: Path)
    requires file.Plain() && |file.parts| > 0
    ensures var env := Blank(file).(answers := map["root" := PathVal(file)]);
      var call := Call(Attribute(Name("self"), "root"), [], false);
      && AllRegular(HelperTwice()) && Explained(env, HelperTwice()[0])
      && !Fits(Resolve(call, file, Passes(3, HelperTwice(), file, map[])), Eval(call, env))
  {
    hide Passes, AllRegular;
    HelperTwiceIsRead(file);
    assert EvalJoined([Name("__file__")], Blank(file).(answers := map["root" := PathVal(file)])) == Some(file);
  }
}
