/** scripts/check_whole_tree_graders.py: a walk inside functions, whose own names hide those around them. */
module WalkScopes {
  import opened Options
  import opened Paths
  import opened PathExpressions
  import opened GraderBindings
  import opened BindingPasses

  // What the script does.

  /** The scope extended function by function, the outermost first. A local the script cannot read, a parameter among
      them, is an assignment of an expression it cannot read. */
  function Enclosing(chain: seq<seq<Definition>>, file: Path, scope: Bindings): Bindings
  {
    if |chain| == 0 then scope
    else Passes(3, chain[|chain| - 1], file, Enclosing(chain[..|chain| - 1], file, scope))
  }

  method EnclosingAssignments(chain: seq<seq<Definition>>, file: Path, scope: Bindings) returns (extended: Bindings)
    ensures extended == Enclosing(chain, file, scope)
  {
    extended := scope;
    for i := 0 to |chain|
      invariant extended == Enclosing(chain[..i], file, scope)
    {
      assert chain[..i + 1][..i] == chain[..i];
      extended := ReadDefinitions(chain[i], file, extended);
    }
    assert chain[..|chain|] == chain;
  }

  /** The scope a walk's receiver is read in: the module's bindings, and only failing those the functions' own. */
  function ReadIn(receiver: Expr, chain: seq<seq<Definition>>, file: Path, bindings: Bindings): Bindings
  {
    if Resolve(receiver, file, bindings).Known? then bindings else Enclosing(chain, file, bindings)
  }

  /** Where the script takes a walk to go. */
  function WalkReading(receiver: Expr, chain: seq<seq<Definition>>, file: Path, bindings: Bindings): Reading
  {
    var reading := Resolve(receiver, file, ReadIn(receiver, chain, file, bindings));
    if reading.Known? then reading else Unknown
  }

  function Blank(file: Path): Env
  {
    Env(file, file, map[], map[], (v, attr) => None, (v, method_) => None, tag => None)
  }

  /** Plain paths, and none for `__file__`: what reading starts from, and keeps. */
  ghost predicate AreProper(bindings: Bindings, file: Path)
  {
    AllPlain(bindings, file) && Variable("__file__") !in bindings
  }

  // What Python does: a name a function assigns hides the one around it.

  function NamesOf(definitions: seq<Definition>): set<string>
  {
    set definition | definition in definitions :: definition.name
  }

  /** The name space a function starts in: its own names have no value yet. */
  function Entered(outer: Env, definitions: seq<Definition>): Env
  {
    outer.(names := outer.names - NamesOf(definitions))
  }

  /** The definition gives its name a new value. */
  predicate Assigns(definition: Definition, env: Env, later: Env)
  {
    var v := Eval(definition.value, later.(names := env.names));
    v.Some? && later.names == env.names[definition.name := v.value]
  }

  /** One step of a function: one of its assignments, whichever comes, or anything this model says nothing about. */
  ghost predicate Moves(definitions: seq<Definition>, env: Env, later: Env)
  {
    && later == env.(names := later.names, attribute := later.attribute, invoke := later.invoke, other := later.other)
    && (later.names == env.names || exists i :: 0 <= i < |definitions| && Assigns(definitions[i], env, later))
  }

  ghost predicate IsRun(run: seq<Env>, definitions: seq<Definition>)
  {
    |run| > 0 && forall i :: 0 <= i < |run| - 1 ==> Moves(definitions, run[i], run[i + 1])
  }

  /** A name space inside a function, at any moment: after any of its assignments, in any order and any number. */
  ghost predicate Nested(outer: Env, inner: Env, definitions: seq<Definition>)
  {
    exists run :: IsRun(run, definitions) && run[0] == Entered(outer, definitions) && run[|run| - 1] == inner
  }

  /** The name spaces from the module's to that of the innermost function. */
  ghost predicate AllNested(envs: seq<Env>, chain: seq<seq<Definition>>)
  {
    |envs| == |chain| + 1 && forall i :: 0 <= i < |chain| ==> Nested(envs[i], envs[i + 1], chain[i])
  }

  /** Every definition of a bound name reads as what is bound. */
  ghost predicate Settled(definitions: seq<Definition>, file: Path, bindings: Bindings)
  {
    forall i :: 0 <= i < |definitions| ==> IsSupported(definitions[i], file, bindings)
  }

  /** Without the names that have a definition reading otherwise, then without those that had depended on them, and so
      on. */
  function Settle(bindings: Bindings, definitions: seq<Definition>, file: Path): (settled: Bindings)
    ensures Settled(definitions, file, settled) && Within(settled, bindings)
    ensures forall key :: key in bindings && key !in KeysOf(definitions) ==> key in settled
    decreases bindings.Keys
  {
    var doubtful := set d | d in definitions && !IsSupported(d, file, bindings) :: d.Key();
    if doubtful == {} then
      assert forall i :: 0 <= i < |definitions| && !IsSupported(definitions[i], file, bindings) ==>
        definitions[i].Key() in doubtful;
      bindings
    else
      assert forall key :: key in doubtful ==> key in bindings && key in KeysOf(definitions);
      var some :| some in doubtful;
      assert some in bindings.Keys && some !in (bindings - doubtful).Keys;
      Settle(bindings - doubtful, definitions, file)
  }

  /** What can be read with each function's names hiding the ones around it, and each name standing for one path at
      every moment it has a value. */
  function Scoped(chain: seq<seq<Definition>>, file: Path, bindings: Bindings): Bindings
  {
    if |chain| == 0 then bindings
    else
      var inner := chain[|chain| - 1];
      Settle(Readable(inner, file, Scoped(chain[..|chain| - 1], file, bindings)), inner, file)
  }

  /** All that passes over a function's definitions can read. */
  function Readable(definitions: seq<Definition>, file: Path, outer: Bindings): Bindings
  {
    Passes(|definitions|, definitions, file, outer - KeysOf(definitions))
  }

  /** The assignments of one function. */
  ghost predicate AreLocals(definitions: seq<Definition>)
  {
    AllRegular(definitions) && forall i :: 0 <= i < |definitions| ==> definitions[i].Assign?
  }

  ghost predicate ChainIsRegular(chain: seq<seq<Definition>>)
  {
    forall i :: 0 <= i < |chain| ==> AreLocals(chain[i])
  }

  lemma {:induction false} PassKeepsOthers(definitions: seq<Definition>, file: Path, bindings: Bindings, key: Key)
    requires forall i :: 0 <= i < |definitions| ==> definitions[i].Key() != key
    ensures Bound(Pass(definitions, file, bindings), key) == Bound(bindings, key)
  {
    hide Resolve;
    if |definitions| > 0 {
      PassKeepsOthers(definitions[..|definitions| - 1], file, bindings, key);
    }
  }

  lemma {:induction false} PassesKeepOthers(n: nat, definitions: seq<Definition>, file: Path, bindings: Bindings,
      key: Key)
    requires key !in KeysOf(definitions)
    ensures Bound(Passes(n, definitions, file, bindings), key) == Bound(bindings, key)
  {
    hide Pass;
    if n > 0 {
      PassesKeepOthers(n - 1, definitions, file, bindings, key);
      PassKeepsOthers(definitions, file, Passes(n - 1, definitions, file, bindings), key);
    }
  }

  /** Bindings that stand for a function's names and for those around it are right where it starts. */
  lemma EnteringStaysSound(bindings: Bindings, outer: Bindings, env: Env, definitions: seq<Definition>)
    requires Agree(outer, env) && AreProper(bindings, env.file) && AreLocals(definitions)
    requires forall key :: key in bindings && key !in KeysOf(definitions) ==> Bound(outer, key) == Known(bindings[key])
    ensures Agree(bindings, Entered(env, definitions))
  {
    hide AllRegular;
    assert forall name :: Variable(name) in KeysOf(definitions) ==> name in NamesOf(definitions);
    assert forall name :: Helper(name) !in KeysOf(definitions);
  }

  lemma MovingStaysSound(bindings: Bindings, definitions: seq<Definition>, env: Env, later: Env)
    requires Agree(bindings, env) && AreLocals(definitions) && Settled(definitions, env.file, bindings)
    requires Moves(definitions, env, later)
    ensures Agree(bindings, later) && later.file == env.file
  {
    hide Eval, Resolve, Regular, Level;
    if later.names != env.names {
      var i :| 0 <= i < |definitions| && Assigns(definitions[i], env, later);
      var meanwhile := later.(names := env.names);
      assert IsSupported(definitions[i], env.file, bindings) && IsRegular(definitions[i]);
      assert Agree(bindings, meanwhile);
      ResolveIsSound(definitions[i].value, bindings, meanwhile);
    }
  }

  lemma {:induction false} RunStaysSound(bindings: Bindings, definitions: seq<Definition>, run: seq<Env>)
    requires IsRun(run, definitions) && Agree(bindings, run[0])
    requires AreLocals(definitions) && Settled(definitions, run[0].file, bindings)
    ensures Agree(bindings, run[|run| - 1]) && run[|run| - 1].file == run[0].file
  {
    hide Agree, Moves, AreLocals, Settled;
    if |run| > 1 {
      var init := run[..|run| - 1];
      assert forall i :: 0 <= i < |init| ==> init[i] == run[i];
      RunStaysSound(bindings, definitions, init);
      assert Moves(definitions, run[|run| - 2], run[|run| - 1]);
      MovingStaysSound(bindings, definitions, run[|run| - 2], run[|run| - 1]);
    }
  }

  lemma {:induction false} PassesStayProper(count: nat, definitions: seq<Definition>, file: Path, bindings: Bindings)
    requires AreProper(bindings, file) && AllRegular(definitions)
    ensures AreProper(Passes(count, definitions, file, bindings), file)
  {
    hide Pass, Passes, IsRegular;
    PassesStaySound(count, definitions, bindings, Blank(file));
  }

  lemma ReadableIsProper(definitions: seq<Definition>, file: Path, outer: Bindings)
    requires AreProper(outer, file) && AreLocals(definitions)
    ensures AreProper(Readable(definitions, file, outer), file)
    ensures AreProper(Settle(Readable(definitions, file, outer), definitions, file), file)
  {
    hide Passes, IsRegular;
    PassesStayProper(|definitions|, definitions, file, outer - KeysOf(definitions));
  }

  /** What is settled for one function is right at every moment of it. */
  lemma NestingStaysSound(definitions: seq<Definition>, outer: Bindings, env: Env, inner: Env)
    requires AreLocals(definitions) && Agree(outer, env) && Nested(env, inner, definitions)
    ensures inner.file == env.file
    ensures Agree(Settle(Readable(definitions, env.file, outer), definitions, env.file), inner)
  {
    hide IsRegular, Moves, Passes, Resolve;
    var readable := Readable(definitions, env.file, outer);
    var settled := Settle(readable, definitions, env.file);
    ReadableIsProper(definitions, env.file, outer);
    forall key | key in settled && key !in KeysOf(definitions) ensures Bound(outer, key) == Known(settled[key]) {
      PassesKeepOthers(|definitions|, definitions, env.file, outer - KeysOf(definitions), key);
    }
    EnteringStaysSound(settled, outer, env, definitions);
    var run :| IsRun(run, definitions) && run[0] == Entered(env, definitions) && run[|run| - 1] == inner;
    RunStaysSound(settled, definitions, run);
  }

  /** Read that way, every binding is right where the walk stands, at every moment. */
  lemma {:induction false} ScopedStaysSound(chain: seq<seq<Definition>>, bindings: Bindings, envs: seq<Env>)
    requires ChainIsRegular(chain) && AllNested(envs, chain) && Agree(bindings, envs[0])
    ensures envs[|chain|].file == envs[0].file
    ensures Agree(Scoped(chain, envs[0].file, bindings), envs[|chain|])
  {
    hide Agree, AreLocals, Nested, Settle, Readable;
    if |chain| > 0 {
      var n := |chain| - 1;
      assert forall i :: 0 <= i < n ==> chain[..n][i] == chain[i] && envs[..n + 1][i + 1] == envs[i + 1];
      ScopedStaysSound(chain[..n], bindings, envs[..n + 1]);
      NestingStaysSound(chain[n], Scoped(chain[..n], envs[0].file, bindings), envs[n], envs[n + 1]);
    }
  }

  // When the script's reading is right.

  /** Some segment starts from the root, so that what it is joined onto does not matter. */
  predicate Rooted(e: Expr)
  {
    match e
    case Attribute(value, _) => Rooted(value)
    case Subscript(base, _) => Rooted(base)
    case Div(left, right) => (right.Str? && Parse(right.text).absolute) || Rooted(left)
    case Call(func, args, _) => (IsPathCall(e) && Rooted(args[0])) || (IsResolveCall(e) && Rooted(func.value))
    case _ => false
  }

  lemma {:induction false} RootedIsFixed(e: Expr, bindings: Bindings, env: Env)
    requires Rooted(e) && Regular(e) && AllPlain(bindings, env.file) && Eval(e, env).Some?
    ensures Resolve(e, env.file, bindings).Known? ==> Eval(e, env) == Some(PathVal(Resolve(e, env.file, bindings).path))
    ensures Resolve(e, env.file, bindings).ParentsOf? ==>
      Eval(e, env) == Some(Parents(Resolve(e, env.file, bindings).path))
  {
    hide Parse, Collapsed, AllPlain;
    match e
    case Attribute(value, _) => RootedIsFixed(value, bindings, env);
    case Subscript(base, _) => RootedIsFixed(base, bindings, env);
    case Div(left, right) =>
      if Rooted(left) {
        RootedIsFixed(left, bindings, env);
      }
    case Call(func, args, _) =>
      if IsPathCall(e) {
        RootedIsFixed(args[0], bindings, env);
      } else if IsResolveCall(e) {
        RootedIsFixed(func.value, bindings, env);
        LevelIsPlain(func.value, env.file, bindings);
        var reading := Resolve(func.value, env.file, bindings);
        if !reading.Unknown? {
          CollapsedIsSameIff(reading.path.parts);
        }
      }
  }

  /** What could be read from other bindings, and cannot from these although they bind its names, raises. */
  lemma {:induction false} UnreadRaises(e: Expr, readable: Bindings, bindings: Bindings, env: Env)
    requires Regular(e) && Agree(bindings, env) && Mentions(e) <= bindings.Keys
    ensures var once, now := Resolve(e, env.file, readable), Resolve(e, env.file, bindings);
      !once.Unknown? ==>
        || (now.Unknown? && Eval(e, env).None?)
        || (now.Known? && once.Known?)
        || (now.ParentsOf? && once.ParentsOf?)
    ensures var once, now := ResolveModuleFile(e, env.file, readable), ResolveModuleFile(e, env.file, bindings);
      once.Known? && !now.Known? ==> AsPath(Eval(e, env)).None?
  {
    hide Parse, Collapsed, Agree;
    match e
    case Attribute(value, _) => UnreadRaises(value, readable, bindings, env);
    case Subscript(base, _) =>
      UnreadRaises(base, readable, bindings, env);
      ResolveIsSound(base, bindings, env);
    case Div(left, _) => UnreadRaises(left, readable, bindings, env);
    case Call(func, args, _) =>
      if IsPathCall(e) {
        if args[0] != Name("__file__") {
          UnreadRaises(args[0], readable, bindings, env);
        }
      } else if IsResolveCall(e) {
        UnreadRaises(func.value, readable, bindings, env);
      }
    case _ =>
  }

  /** How many parts an expression can take off the path it starts from. */
  function Drops(e: Expr): nat
  {
    match e
    case Attribute(value, _) => Drops(value) + 1
    case Subscript(base, index) => Drops(base) + if index.Int? then index.number else 0
    case Div(left, _) => Drops(left)
    case Call(func, args, _) =>
      if IsPathCall(e) then Drops(args[0]) else if IsResolveCall(e) then Drops(func.value) else 0
    case _ => 0
  }

  function Repeated(part: string, n: nat): Path
  {
    Path(true, seq(n, _ => part))
  }

  predicate StartsWith(path: Path, part: string, n: int)
  {
    path.absolute && n <= |path.parts| && forall i :: 0 <= i < n ==> path.parts[i] == part
  }

  lemma StartStays(path: Path, part: string, n: int, other: Path)
    requires StartsWith(path, part, n)
    ensures StartsWith(path.Parent(), part, n - 1)
    ensures !other.absolute ==> StartsWith(path.Joined(other), part, n)
    ensures forall k :: 0 <= k < n - 1 ==> path.Ancestor(k).Some? && StartsWith(path.Ancestor(k).value, part, n - 1 - k)
  {
  }

  lemma RepeatedStarts(part: string, n: nat)
    ensures StartsWith(Repeated(part, n), part, n)
  {
  }

  /** Read from a path that repeats one part often enough, an expression gives a path that starts with it. */
  lemma {:induction false} ReadsFromBase(e: Expr, file: Path, readable: Bindings, bindings: Bindings, part: string,
      n: nat)
    requires !Rooted(e) && Mentions(e) != {} && n > Drops(e)
    requires forall key :: key in Mentions(e) ==> key in bindings && bindings[key] == Repeated(part, n)
    ensures var once, now := Resolve(e, file, readable), Resolve(e, file, bindings);
      && (once.Known? ==> now.Known? && StartsWith(now.path, part, n - Drops(e)))
      && (once.ParentsOf? ==> now.ParentsOf? && StartsWith(now.path, part, n - Drops(e) + 1))
    decreases e, 0
  {
    hide Parse, StartsWith, Repeated, Path.Parent, Path.Ancestor, Path.Joined;
    RepeatedStarts(part, n);
    match e
    case Attribute(value, _) =>
      ReadsFromBase(value, file, readable, bindings, part, n);
      var now := Resolve(value, file, bindings);
      if Resolve(value, file, readable).Known? {
        StartStays(now.path, part, n - Drops(value), now.path);
      }
    case Subscript(base, _) =>
      ReadsFromBase(base, file, readable, bindings, part, n);
      var now := Resolve(base, file, bindings);
      if Resolve(base, file, readable).ParentsOf? {
        StartStays(now.path, part, n - Drops(base) + 1, now.path);
      }
    case Div(left, right) =>
      ReadsFromBase(left, file, readable, bindings, part, n);
      var now := Resolve(left, file, bindings);
      if Resolve(left, file, readable).Known? && right.Str? {
        StartStays(now.path, part, n - Drops(left), Parse(right.text));
      }
    case Call(func, args, _) =>
      if IsPathCall(e) {
        FileReadsFromBase(args[0], file, readable, bindings, part, n);
      } else if IsResolveCall(e) {
        ReadsFromBase(func.value, file, readable, bindings, part, n);
      }
    case _ =>
  }

  lemma {:induction false} FileReadsFromBase(e: Expr, file: Path, readable: Bindings, bindings: Bindings, part: string,
      n: nat)
    requires !Rooted(e) && e != Name("__file__") && Mentions(e) != {} && n > Drops(e)
    requires forall key :: key in Mentions(e) ==> key in bindings && bindings[key] == Repeated(part, n)
    ensures var once, now := ResolveModuleFile(e, file, readable), ResolveModuleFile(e, file, bindings);
      once.Known? ==> now.Known? && StartsWith(now.path, part, n - Drops(e))
    decreases e, 1
  {
    hide StartsWith, Repeated, Drops;
    RepeatedStarts(part, n);
    Weakens(Repeated(part, n), part, n, n - Drops(e));
    ReadsFromBase(e, file, readable, bindings, part, n);
  }

  lemma Weakens(path: Path, part: string, n: int, fewer: int)
    requires StartsWith(path, part, n) && fewer <= n
    ensures StartsWith(path, part, fewer)
  {
  }

  /** Nothing resolves `.parents`, which has no such method. */
  predicate ResolvesNoParents(e: Expr)
  {
    match e
    case Attribute(value, _) => ResolvesNoParents(value)
    case Subscript(base, _) => ResolvesNoParents(base)
    case Div(left, _) => ResolvesNoParents(left)
    case Call(func, args, _) =>
      && (IsPathCall(e) ==> ResolvesNoParents(args[0]))
      && (IsResolveCall(e) ==>
        ResolvesNoParents(func.value) && !(func.value.Attribute? && func.value.attr == "parents"))
    case _ => true
  }

  /** The name an expression starts from is that of a module, whose file it asks for. */
  predicate OfModule(e: Expr)
  {
    match e
    case Attribute(value, attr) => attr == "__file__" || OfModule(value)
    case Subscript(base, _) => OfModule(base)
    case Div(left, _) => OfModule(left)
    case Call(func, args, _) =>
      (IsPathCall(e) && OfModule(args[0])) || (IsResolveCall(e) && OfModule(func.value)) || IsFileCall(e)
    case _ => false
  }

  /** The name space holds what is bound to these keys: the path, or a module loaded from it. */
  ghost predicate HoldsAll(keys: set<Key>, bindings: Bindings, env: Env, modules: bool)
  {
    && (forall name :: Variable(name) in keys && Variable(name) in bindings ==>
          && name in env.names && name != "__file__"
          && env.names[name] == if modules then Located(bindings[Variable(name)])
            else PathVal(bindings[Variable(name)]))
    && (forall name :: Helper(name) in keys && Helper(name) in bindings ==>
          name in env.answers && env.answers[name] == PathVal(bindings[Helper(name)]))
  }

  /** Such an expression gives what is read, run where its name holds what is bound to it. */
  lemma {:induction false} ReadIsRun(e: Expr, bindings: Bindings, env: Env)
    requires Regular(e) && ResolvesNoParents(e) && AllPlain(bindings, env.file)
    requires HoldsAll(Mentions(e), bindings, env, OfModule(e))
    ensures var reading := Resolve(e, env.file, bindings);
      && (reading.Known? ==> Eval(e, env) == Some(PathVal(reading.path)))
      && (reading.ParentsOf? ==> Eval(e, env) == Some(Parents(reading.path)) && e.Attribute? && e.attr == "parents")
    decreases e, 0
  {
    hide Parse, Collapsed, AllPlain;
    match e
    case Attribute(value, attr) =>
      if attr != "__file__" {
        ReadIsRun(value, bindings, env);
      }
    case Subscript(base, _) => ReadIsRun(base, bindings, env);
    case Div(left, _) => ReadIsRun(left, bindings, env);
    case Call(func, args, _) =>
      if IsPathCall(e) {
        assert EvalJoined(args, env) == AsPath(Eval(args[0], env));
        FileReadIsRun(args[0], bindings, env);
      } else if IsResolveCall(e) {
        ReadIsRun(func.value, bindings, env);
        LevelIsPlain(func.value, env.file, bindings);
        var reading := Resolve(func.value, env.file, bindings);
        if !reading.Unknown? {
          CollapsedIsSameIff(reading.path.parts);
        }
      }
    case _ =>
  }

  lemma {:induction false} FileReadIsRun(e: Expr, bindings: Bindings, env: Env)
    requires Regular(e) && ResolvesNoParents(e) && AllPlain(bindings, env.file)
    requires e != Name("__file__") ==> HoldsAll(Mentions(e), bindings, env, OfModule(e))
    ensures var reading := ResolveModuleFile(e, env.file, bindings);
      reading.Known? ==> AsPath(Eval(e, env)) == Some(reading.path)
    decreases e, 1
  {
    hide Parse, Collapsed, AllPlain;
    if e == Name("__file__") {
    } else if e.Attribute? && e.attr == "__file__" && e.value.Name? {
    } else if IsFileCall(e) && e.args[0].Name? {
    } else {
      ReadIsRun(e, bindings, env);
    }
  }

  // Exactly when.

  /** Right whatever the name space, as long as it agrees with what is bound. */
  ghost predicate RightInEvery(reading: Reading, e: Expr, file: Path, bindings: Bindings)
  {
    forall env: Env :: env.file == file && Agree(bindings, env) ==> Fits(reading, Eval(e, env))
  }

  /** The reading does not depend on any name, or every name it depends on is bound and gives the same. */
  predicate ReadsTheSame(reading: Reading, e: Expr, file: Path, bindings: Bindings)
  {
    || Rooted(e)
    || (Mentions(e) <= bindings.Keys
        && (Resolve(e, file, bindings).Known? ==> Resolve(e, file, bindings) == reading))
  }

  /** No more than one name is looked up. */
  lemma {:induction false} OneMention(e: Expr) returns (key: Key)
    ensures Mentions(e) <= {key}
  {
    key := Variable("");
    match e
    case Name(id) => key := Variable(id);
    case Attribute(value, _) => key := OneMention(value);
    case Subscript(base, _) => key := OneMention(base);
    case Div(left, _) => key := OneMention(left);
    case Call(func, args, _) =>
      if IsPathCall(e) || IsFileCall(e) {
        key := OneMention(args[0]);
      } else if IsResolveCall(e) {
        key := OneMention(func.value);
      } else if IsBareCall(e) {
        key := Helper(CalledName(func).value);
      }
    case _ =>
  }

  /** A name space where one key has a value and nothing else has. */
  function Only(file: Path, key: Key, path: Path, modules: bool): Env
  {
    match key
    case Variable(name) => Blank(file).(names := map[name := if modules then Located(path) else PathVal(path)])
    case Helper(name) => Blank(file).(answers := map[name := PathVal(path)])
  }

  lemma OnlyAgrees(file: Path, key: Key, path: Path, modules: bool, bindings: Bindings)
    requires AreProper(bindings, file) && (key in bindings ==> bindings[key] == path)
    ensures Agree(bindings, Only(file, key, path, modules)) && Only(file, key, path, modules).file == file
  {
  }

  lemma OnlyHolds(file: Path, key: Key, path: Path, modules: bool, keys: set<Key>, bindings: Bindings)
    requires keys <= {key} && key != Variable("__file__") && key in bindings && bindings[key] == path
    ensures HoldsAll(keys, bindings, Only(file, key, path, modules), modules)
  {
  }

  /** With the name it starts from unknown, an expression can be any of two paths. */
  lemma UnknownBaseMisleads(e: Expr, file: Path, readable: Bindings, bindings: Bindings, key: Key)
    requires Regular(e) && ResolvesNoParents(e) && !Rooted(e) && Mentions(e) == {key} && key !in bindings
    requires AreProper(readable, file) && AreProper(bindings, file)
      && Resolve(e, file, readable).Known? && key in readable
    ensures !RightInEvery(Resolve(e, file, readable), e, file, bindings)
  {
    hide Regular, ResolvesNoParents, Rooted, Resolve, ResolveModuleFile, Eval, Agree, Only, Mentions, OfModule;
    var path, n := Resolve(e, file, readable).path, Drops(e) + 1;
    var part := if |path.parts| > 0 && path.parts[0] == "a" then "b" else "a";
    var base := Repeated(part, n);
    var more := bindings[key := base];
    var env := Only(file, key, base, OfModule(e));
    assert AreProper(more, file);
    ReadsFromBase(e, file, readable, more, part, n);
    OnlyAgrees(file, key, base, OfModule(e), bindings);
    OnlyHolds(file, key, base, OfModule(e), Mentions(e), more);
    ReadIsRun(e, more, env);
    assert Resolve(e, file, more).path != path;
    assert !Fits(Resolve(e, file, readable), Eval(e, env));
  }

  /** Where the names it depends on are bound but give another path, it is that other path somewhere. */
  lemma OtherBaseMisleads(e: Expr, file: Path, reading: Reading, bindings: Bindings)
    requires Regular(e) && ResolvesNoParents(e) && AreProper(bindings, file) && Mentions(e) <= bindings.Keys
    requires reading.Known? && Resolve(e, file, bindings).Known? && Resolve(e, file, bindings) != reading
    ensures !RightInEvery(reading, e, file, bindings)
  {
    hide Regular, ResolvesNoParents, Resolve, Eval, Agree, Only, Mentions, OfModule;
    var key := OneMention(e);
    var modules := OfModule(e);
    var path := if key in bindings then bindings[key] else file;
    var env := Only(file, key, path, modules);
    OnlyAgrees(file, key, path, modules, bindings);
    if key in bindings {
      OnlyHolds(file, key, path, modules, Mentions(e), bindings);
    }
    ReadIsRun(e, bindings, env);
    assert !Fits(reading, Eval(e, env));
  }

  /** A reading from some bindings is right in every name space agreeing with others, if and only if it reads the same
      from those. */
  lemma RightElsewhereIff(e: Expr, file: Path, readable: Bindings, bindings: Bindings)
    requires Regular(e) && ResolvesNoParents(e) && AreProper(readable, file) && AreProper(bindings, file)
    requires Resolve(e, file, readable).Known?
    ensures var reading := Resolve(e, file, readable);
      RightInEvery(reading, e, file, bindings) <==> ReadsTheSame(reading, e, file, bindings)
  {
    hide Regular, ResolvesNoParents, Rooted, Resolve, Eval, Agree, Mentions;
    var reading := Resolve(e, file, readable);
    if ReadsTheSame(reading, e, file, bindings) {
      forall env: Env | env.file == file && Agree(bindings, env) ensures Fits(reading, Eval(e, env)) {
        if Rooted(e) {
          if Eval(e, env).Some? {
            RootedIsFixed(e, readable, env);
          }
        } else {
          ResolveIsSound(e, bindings, env);
          UnreadRaises(e, readable, bindings, env);
        }
      }
    } else if Mentions(e) <= bindings.Keys {
      OtherBaseMisleads(e, file, reading, bindings);
    } else {
      var key := OneMention(e);
      assert Mentions(e) == {key} && key !in bindings;
      KnownHasItsNames(e, file, readable);
      UnknownBaseMisleads(e, file, readable, bindings, key);
    }
  }

  lemma {:induction false} KnownHasItsNames(e: Expr, file: Path, bindings: Bindings)
    ensures !Resolve(e, file, bindings).Unknown? ==> Mentions(e) <= bindings.Keys
    ensures ResolveModuleFile(e, file, bindings).Known? && e != Name("__file__") ==> Mentions(e) <= bindings.Keys
  {
    hide Parse;
    match e
    case Attribute(value, _) => KnownHasItsNames(value, file, bindings);
    case Subscript(base, _) => KnownHasItsNames(base, file, bindings);
    case Div(left, _) => KnownHasItsNames(left, file, bindings);
    case Call(func, args, _) =>
      if IsPathCall(e) {
        KnownHasItsNames(args[0], file, bindings);
      } else if IsResolveCall(e) {
        KnownHasItsNames(func.value, file, bindings);
      }
    case _ =>
  }

  lemma {:induction false} ScopesAreProper(chain: seq<seq<Definition>>, file: Path, bindings: Bindings)
    requires AreProper(bindings, file) && ChainIsRegular(chain)
    ensures AreProper(Enclosing(chain, file, bindings), file) && AreProper(Scoped(chain, file, bindings), file)
  {
    hide Passes, AllRegular, Settle, Readable, AreProper;
    if |chain| > 0 {
      var outer, inner := chain[..|chain| - 1], chain[|chain| - 1];
      ScopesAreProper(outer, file, bindings);
      PassesStayProper(3, inner, file, Enclosing(outer, file, bindings));
      ReadableIsProper(inner, file, Scoped(outer, file, bindings));
    }
  }

  /** Where the script takes a walk to go, by the module's bindings, is right in every name space agreeing with what can
      be read there, if and only if it takes it nowhere or reads the same from the scope Python looks the names up in.
      `sure` are those of the module's bindings that are right at every moment. */
  lemma WalkIsRightIff(receiver: Expr, chain: seq<seq<Definition>>, file: Path, bindings: Bindings, sure: Bindings)
    requires Regular(receiver) && ResolvesNoParents(receiver) && ChainIsRegular(chain)
    requires AreProper(bindings, file) && AreProper(sure, file)
    ensures var reading, scoped := WalkReading(receiver, chain, file, bindings), Scoped(chain, file, sure);
      RightInEvery(reading, receiver, file, scoped)
      <==> reading.Unknown? || ReadsTheSame(reading, receiver, file, scoped)
  {
    hide Regular, Resolve, Eval, Agree, Enclosing, Scoped, AreProper, ReadsTheSame;
    ScopesAreProper(chain, file, bindings);
    ScopesAreProper(chain, file, sure);
    if WalkReading(receiver, chain, file, bindings).Known? {
      RightElsewhereIff(receiver, file, ReadIn(receiver, chain, file, bindings), Scoped(chain, file, sure));
    }
  }

  /** And then it is where the walk really goes, at whatever moment of the nested functions. */
  lemma WalkIsSound(receiver: Expr, chain: seq<seq<Definition>>, bindings: Bindings, sure: Bindings, envs: seq<Env>)
    requires Regular(receiver) && ResolvesNoParents(receiver) && ChainIsRegular(chain)
    requires AllNested(envs, chain) && AreProper(bindings, envs[0].file) && Agree(sure, envs[0])
    requires var reading, file := WalkReading(receiver, chain, envs[0].file, bindings), envs[0].file;
      reading.Unknown? || ReadsTheSame(reading, receiver, file, Scoped(chain, file, sure))
    ensures Fits(WalkReading(receiver, chain, envs[0].file, bindings), Eval(receiver, envs[|chain|]))
  {
    hide Regular, Resolve, Eval, Enclosing, Scoped, ReadsTheSame, Nested, ChainIsRegular, WalkReading,
         ResolvesNoParents;
    ScopedStaysSound(chain, sure, envs);
    WalkIsRightIff(receiver, chain, envs[0].file, bindings, sure);
  }

  /** For a walk on a plain name: it must be bound to the same path where it is looked up. */
  lemma WalkOnNameIff(name: string, chain: seq<seq<Definition>>, file: Path, bindings: Bindings, sure: Bindings)
    requires AreProper(bindings, file) && AreProper(sure, file) && ChainIsRegular(chain)
    ensures var reading, scoped := WalkReading(Name(name), chain, file, bindings), Scoped(chain, file, sure);
      RightInEvery(reading, Name(name), file, scoped)
      <==> (reading.Known? ==> Variable(name) in scoped && scoped[Variable(name)] == reading.path)
  {
    hide Agree, Enclosing, Scoped, AreProper, RightInEvery;
    WalkIsRightIff(Name(name), chain, file, bindings, sure);
  }

  // No more can be read.

  /** A pass that starts from no more than settled bindings binds nothing otherwise than those. */
  lemma {:induction false} PassAgreesWith(order: seq<Definition>, definitions: seq<Definition>, file: Path,
      bindings: Bindings, settled: Bindings)
    requires Settled(definitions, file, settled) && forall d :: d in order ==> d in definitions
    requires forall key :: key in bindings && key in settled ==> bindings[key] == settled[key]
    ensures var after := Pass(order, file, bindings);
      forall key :: key in after && key in settled ==> after[key] == settled[key]
  {
    hide Resolve, Mentions;
    if |order| > 0 {
      var init, d := order[..|order| - 1], order[|order| - 1];
      PassAgreesWith(init, definitions, file, bindings, settled);
      var before := Pass(init, file, bindings);
      if Resolve(d.value, file, before).Known? && d.Key() in settled {
        assert d in definitions;
        KnownHasItsNames(d.value, file, settled);
        KnownHasItsNames(d.value, file, before);
        ReadingCarries(d.value, file, before, settled);
      }
    }
  }

  lemma {:induction false} PassesAgreeWith(n: nat, definitions: seq<Definition>, file: Path, bindings: Bindings,
      settled: Bindings)
    requires Settled(definitions, file, settled)
    requires forall key :: key in bindings && key in settled ==> bindings[key] == settled[key]
    ensures var after := Passes(n, definitions, file, bindings);
      forall key :: key in after && key in settled ==> after[key] == settled[key]
  {
    hide Pass, Settled;
    if n > 0 {
      PassesAgreeWith(n - 1, definitions, file, bindings, settled);
      PassAgreesWith(definitions, definitions, file, Passes(n - 1, definitions, file, bindings), settled);
    }
  }

  lemma {:induction false} SettleIsLargest(bindings: Bindings, definitions: seq<Definition>, file: Path,
      settled: Bindings)
    requires Settled(definitions, file, settled) && Within(settled, bindings)
    ensures Within(settled, Settle(bindings, definitions, file))
    decreases bindings.Keys
  {
    hide Resolve;
    var doubtful := set d | d in definitions && !IsSupported(d, file, bindings) :: d.Key();
    if doubtful != {} {
      forall d | d in definitions && !IsSupported(d, file, bindings) ensures d.Key() !in settled {
        if d.Key() in settled {
          assert IsSupported(d, file, settled);
          ReadsWithin(d.value, file, settled, bindings);
        }
      }
      var some :| some in doubtful;
      assert some in bindings.Keys && some !in (bindings - doubtful).Keys;
      SettleIsLargest(bindings - doubtful, definitions, file, settled);
    }
  }

  /** Of one function's names and those around it, no more can be settled than is: any settled bindings of names the
      passes can read are among them. */
  lemma SettledIsLargest(definitions: seq<Definition>, file: Path, outer: Bindings, settled: Bindings)
    requires Settled(definitions, file, settled) && settled.Keys <= Readable(definitions, file, outer).Keys
    requires forall key :: key in settled && key !in KeysOf(definitions) ==> Bound(outer, key) == Known(settled[key])
    ensures Within(settled, Settle(Readable(definitions, file, outer), definitions, file))
  {
    hide Settled, Settle, Passes;
    PassesAgreeWith(|definitions|, definitions, file, outer - KeysOf(definitions), settled);
    SettleIsLargest(Readable(definitions, file, outer), definitions, file, settled);
  }
}
