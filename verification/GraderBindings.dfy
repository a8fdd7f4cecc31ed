/** scripts/check_whole_tree_graders.py: what a module binds its names to, and where its walks go. */
module GraderBindings {
  import opened Options
  import opened Paths
  import opened PathExpressions

  /** A definition the script reads: a name assigned, or a helper without arguments and the one expression it
      returns. */
  datatype Definition = Assign(name: string, value: Expr) | Answer(name: string, value: Expr)
  {
    function Key(): Key
    {
      if Assign? then Variable(name) else Helper(name)
    }
  }

  function KeysOf(definitions: seq<Definition>): set<Key>
  {
    set definition | definition in definitions :: definition.Key()
  }

  function Read(definition: Definition, file: Path, bindings: Bindings): Bindings
  {
    var reading := Resolve(definition.value, file, bindings);
    if reading.Known? then bindings[definition.Key() := reading.path] else bindings
  }

  /** One pass over the definitions, in the order they stand. */
  function Pass(definitions: seq<Definition>, file: Path, bindings: Bindings): Bindings
  {
    if |definitions| == 0 then bindings
    else Read(definitions[|definitions| - 1], file, Pass(definitions[..|definitions| - 1], file, bindings))
  }

  function Passes(count: nat, definitions: seq<Definition>, file: Path, bindings: Bindings): Bindings
  {
    if count == 0 then bindings else Pass(definitions, file, Passes(count - 1, definitions, file, bindings))
  }

  /** `_module_bindings`, from the imported names; `_enclosing_assignments` does the same for one function's locals. */
  method ReadDefinitions(definitions: seq<Definition>, file: Path, known: Bindings) returns (bindings: Bindings)
    ensures bindings == Passes(3, definitions, file, known)
  {
    bindings := known;
    for round := 0 to 3
      invariant bindings == Passes(round, definitions, file, known)
    {
      ghost var before := bindings;
      for i := 0 to |definitions|
        invariant bindings == Pass(definitions[..i], file, before)
      {
        assert definitions[..i + 1][..i] == definitions[..i];
        var reading := Resolve(definitions[i].value, file, bindings);
        if reading.Known? {
          bindings := bindings[definitions[i].Key() := reading.path];
        }
      }
      assert definitions[..|definitions|] == definitions;
    }
  }

  /** A regular definition that does not itself go up. */
  predicate IsRegular(definition: Definition)
  {
    Regular(definition.value) && Level(definition.value) && definition.Key() != Variable("__file__")
  }

  ghost predicate AllRegular(definitions: seq<Definition>)
  {
    forall i :: 0 <= i < |definitions| ==> IsRegular(definitions[i])
  }

  /** The value of a defined name, or answer of a helper, is what its definition evaluates to. */
  ghost predicate Explained(env: Env, definition: Definition)
  {
    && (definition.Assign? && definition.name in env.names ==>
      Eval(definition.value, env) == Some(env.names[definition.name]))
    && (definition.Answer? && definition.name in env.answers ==>
          Eval(definition.value, env) == Some(env.answers[definition.name]))
  }

  ghost predicate Consistent(env: Env, definitions: seq<Definition>)
  {
    forall i :: 0 <= i < |definitions| ==> Explained(env, definitions[i])
  }

  lemma ReadStaysSound(definition: Definition, bindings: Bindings, env: Env)
    requires Agree(bindings, env) && IsRegular(definition) && Explained(env, definition)
    ensures Agree(Read(definition, env.file, bindings), env)
  {
    hide Resolve, Eval, Regular, Level;
    ResolveIsSound(definition.value, bindings, env);
    LevelIsPlain(definition.value, env.file, bindings);
  }

  lemma {:induction false} PassStaysSound(definitions: seq<Definition>, bindings: Bindings, env: Env)
    requires Agree(bindings, env) && AllRegular(definitions) && Consistent(env, definitions)
    ensures Agree(Pass(definitions, env.file, bindings), env)
  {
    hide Agree, Read, IsRegular, Explained;
    if |definitions| > 0 {
      var init := definitions[..|definitions| - 1];
      assert forall i :: 0 <= i < |init| ==> init[i] == definitions[i];
      PassStaysSound(init, bindings, env);
      ReadStaysSound(definitions[|definitions| - 1], Pass(init, env.file, bindings), env);
    }
  }

  /** However many passes are made. */
  lemma {:induction false} PassesStaySound(count: nat, definitions: seq<Definition>, bindings: Bindings, env: Env)
    requires Agree(bindings, env) && AllRegular(definitions) && Consistent(env, definitions)
    ensures Agree(Passes(count, definitions, env.file, bindings), env)
  {
    hide Agree, AllRegular, Consistent, Pass;
    if count > 0 {
      PassesStaySound(count - 1, definitions, bindings, env);
      PassStaysSound(definitions, Passes(count - 1, definitions, env.file, bindings), env);
    }
  }

  // Running a module.

  /** The module's assignments, one after the other; one that raises leaves its name without a value. */
  function Execute(definitions: seq<Definition>, env: Env): Env
  {
    if |definitions| == 0 then env
    else
      var before, last := Execute(definitions[..|definitions| - 1], env), definitions[|definitions| - 1];
      if last.Answer? || Eval(last.value, before).None? then before
      else before.(names := before.names[last.name := Eval(last.value, before).value])
  }

  /** Every name is assigned once, and none that already had a value. */
  ghost predicate AssignedOnce(definitions: seq<Definition>, env: Env)
  {
    && (forall i :: 0 <= i < |definitions| && definitions[i].Assign? ==> definitions[i].name !in env.names)
    && (forall i, j :: 0 <= i < j < |definitions| && definitions[i].Assign? && definitions[j].Assign? ==>
          definitions[i].name != definitions[j].name)
  }

  ghost predicate AnswersHold(definitions: seq<Definition>, env: Env)
  {
    forall i :: 0 <= i < |definitions| && definitions[i].Answer? ==> Explained(env, definitions[i])
  }

  lemma StaysExplained(definition: Definition, before: Env, after: Env)
    requires definition.Assign? && Grows(before, after) && Explained(before, definition)
    requires definition.name in after.names ==> definition.name in before.names
    ensures Explained(after, definition)
  {
    hide Eval;
    if definition.name in after.names {
      EvalGrows(definition.value, before, after);
    }
  }

  /** A name that had no value, given one. */
  lemma JustAssigned(definition: Definition, before: Env, v: Val)
    requires definition.Assign? && definition.name !in before.names && Eval(definition.value, before) == Some(v)
    ensures var after := before.(names := before.names[definition.name := v]);
      Grows(before, after) && Explained(after, definition)
  {
    hide Eval;
    EvalGrows(definition.value, before, before.(names := before.names[definition.name := v]));
  }

  lemma {:induction false} ExecuteAssigns(definitions: seq<Definition>, env: Env)
    requires AssignedOnce(definitions, env)
    ensures Grows(env, Execute(definitions, env))
    ensures forall name :: name in Execute(definitions, env).names ==>
      name in env.names || exists i :: 0 <= i < |definitions| && definitions[i] == Assign(name, definitions[i].value)
    ensures forall i :: 0 <= i < |definitions| && definitions[i].Assign? ==>
      Explained(Execute(definitions, env), definitions[i])
  {
    hide Eval;
    if |definitions| > 0 {
      var init, last := definitions[..|definitions| - 1], definitions[|definitions| - 1];
      assert forall i :: 0 <= i < |init| ==> init[i] == definitions[i];
      ExecuteAssigns(init, env);
      var before, after := Execute(init, env), Execute(definitions, env);
      if last.Assign? && Eval(last.value, before).Some? {
        assert last.name !in before.names;
        JustAssigned(last, before, Eval(last.value, before).value);
      }
      hide Execute, Explained;
      forall i | 0 <= i < |init| && definitions[i].Assign? ensures Explained(after, definitions[i]) {
        assert last.Assign? ==> definitions[i].name != last.name;
        StaysExplained(definitions[i], before, after);
      }
    }
  }

  /** Only names are imported, and none of them is defined. */
  ghost predicate AreImports(imports: Bindings, definitions: seq<Definition>)
  {
    && (forall key :: key in imports ==> key.Variable?)
    && forall i :: 0 <= i < |definitions| ==> definitions[i].Key() !in imports
  }

  /** A module that assigns each name once: after the three passes every binding is right in the name space the module
      leaves behind, in whatever order it declares its names. */
  lemma ModuleReadingIsSound(definitions: seq<Definition>, imports: Bindings, env: Env)
    requires AllRegular(definitions) && AssignedOnce(definitions, env)
      && AnswersHold(definitions, Execute(definitions, env))
    requires Agree(imports, env) && AreImports(imports, definitions)
    ensures Agree(Passes(3, definitions, env.file, imports), Execute(definitions, env))
    ensures forall e :: Regular(e) ==>
      Fits(Resolve(e, env.file, Passes(3, definitions, env.file, imports)), Eval(e, Execute(definitions, env)))
  {
    hide Eval, Resolve, Passes, Execute, Regular, IsRegular;
    var after := Execute(definitions, env);
    ExecuteAssigns(definitions, env);
    assert Consistent(after, definitions);
    assert Agree(imports, after) by {
      forall name | Variable(name) in imports && name in after.names ensures name in env.names {
        assert forall i :: 0 <= i < |definitions| && definitions[i].Assign? ==>
          definitions[i].Key() == Variable(definitions[i].name);
      }
    }
    PassesStaySound(3, definitions, imports, after);
    forall e | Regular(e)
      ensures Fits(Resolve(e, env.file, Passes(3, definitions, env.file, imports)), Eval(e, after))
    {
      ResolveIsSound(e, Passes(3, definitions, env.file, imports), after);
    }
  }
}
