/** scripts/check_whole_tree_graders.py: reading path expressions without running them, against what running them
    gives. */
module PathExpressions {
  import opened Options
  import opened Text
  import opened Paths

  // Expressions and their values.

  datatype Expr =
    | Name(id: string)
    | Str(text: string)
    | Int(number: nat)
    | Flag(flag: bool)
    | Attribute(value: Expr, attr: string)
    | Subscript(base: Expr, index: Expr)
    | Div(left: Expr, right: Expr)
    | Call(func: Expr, args: seq<Expr>, keywords: bool)
    | Other(tag: nat)

  /** A path, the sequence of its parents, a string, a string naming a file, an object loaded from a file, or anything
      else. */
  datatype Val =
    | PathVal(path: Path)
    | Parents(path: Path)
    | Text(text: string)
    | File(path: Path)
    | Located(path: Path)
    | Thing(id: nat)

  /** A name space to evaluate in: variables, what each helper without arguments answers, and what objects this model
      says nothing about do. */
  datatype Env = Env(
    file: Path, cwd: Path, names: map<string, Val>, answers: map<string, Val>,
    attribute: (Val, string) -> Option<Val>, invoke: (Val, string) -> Option<Val>, other: nat -> Option<Val>)

  function Lookup<K, V>(m: map<K, V>, key: K): Option<V>
  {
    if key in m then Some(m[key]) else None
  }

  /** The name a call is made by. */
  function CalledName(func: Expr): Option<string>
  {
    if func.Attribute? then Some(func.attr) else if func.Name? then Some(func.id) else None
  }

  predicate IsPathCall(e: Expr)
  {
    e.Call? && CalledName(e.func) == Some("Path") && |e.args| > 0
  }

  predicate IsResolveCall(e: Expr)
  {
    e.Call? && !IsPathCall(e) && e.func.Attribute? && (e.func.attr == "resolve" || e.func.attr == "absolute")
  }

  predicate IsFileCall(e: Expr)
  {
    e.Call? && (CalledName(e.func) == Some("getfile") || CalledName(e.func) == Some("getsourcefile")) && |e.args| == 1
  }

  predicate IsBareCall(e: Expr)
  {
    e.Call? && !IsPathCall(e) && !IsResolveCall(e) && CalledName(e.func).Some? && |e.args| == 0 && !e.keywords
  }

  predicate IsOwnReceiver(e: Expr)
  {
    e.Name? && (e.id == "self" || e.id == "cls")
  }

  /** A call through this name, plainly or as an attribute of anything. */
  ghost predicate IsCalledBy(func: Expr, name: string)
  {
    func == Name(name) || exists value :: func == Attribute(value, name)
  }

  /** The kinds of call, told from the text: `Path(...)`, `x.resolve(...)` and `x.absolute(...)`, `getfile(x)` and
      `getsourcefile(x)`, and any other call without arguments. */
  lemma CallsAreTold(func: Expr, args: seq<Expr>, keywords: bool)
    ensures var e := Call(func, args, keywords);
      && (IsPathCall(e) <==> args != [] && IsCalledBy(func, "Path"))
      && (IsResolveCall(e) <==> exists x :: func == Attribute(x, "resolve") || func == Attribute(x, "absolute"))
      && (IsFileCall(e) <==> |args| == 1 && (IsCalledBy(func, "getfile") || IsCalledBy(func, "getsourcefile")))
      && (IsBareCall(e) <==>
            && args == [] && !keywords && !IsResolveCall(e)
            && ((exists id :: func == Name(id)) || exists x, name :: func == Attribute(x, name)))
  {
    assert func.Attribute? ==> func == Attribute(func.value, func.attr);
    assert func.Name? ==> func == Name(func.id);
  }

  function AsPath(v: Option<Val>): Option<Path>
  {
    match v
    case Some(PathVal(path)) => Some(path)
    case Some(File(path)) => Some(path)
    case Some(Text(text)) => Some(Parse(text))
    case _ => None
  }

  function Member(env: Env, v: Val, attr: string): Option<Val>
  {
    match v
    case PathVal(path) =>
      if attr == "parent" then Some(PathVal(path.Parent())) else if attr == "parents" then Some(Parents(path)) else None
    case Located(path) => if attr == "__file__" then Some(File(path)) else None
    case Parents(_) => None
    case _ => env.attribute(v, attr)
  }

  function Resolved(env: Env, v: Val, method_: string): Option<Val>
  {
    match v
    case PathVal(path) =>
      var anchored := env.cwd.Joined(path);
      Some(PathVal(if method_ == "resolve" then Path(anchored.absolute, Collapsed(anchored.parts)) else anchored))
    case Located(_) => None
    case Parents(_) => None
    case _ => env.invoke(v, method_)
  }

  /** What running the expression gives; nothing if it raises or is outside this model. */
  function Eval(e: Expr, env: Env): Option<Val>
    decreases e, 1
  {
    match e
    case Name(id) => if id == "__file__" then Some(File(env.file)) else Lookup(env.names, id)
    case Str(text) => Some(Text(text))
    case Int(_) => None
    case Flag(_) => None
    case Other(tag) => env.other(tag)
    case Attribute(value, attr) =>
      var v := Eval(value, env);
      if v.None? then None else Member(env, v.value, attr)
    case Subscript(base, index) =>
      var v := Eval(base, env);
      if v.None? || !v.value.Parents? then None
      else if index.Int? then OptionPath(v.value.path.Ancestor(index.number))
      else if index.Flag? then OptionPath(v.value.path.Ancestor(if index.flag then 1 else 0))
      else None
    case Div(left, right) =>
      var v, segment := Eval(left, env), AsPath(Eval(right, env));
      if v.None? || !v.value.PathVal? || segment.None? then None else Some(PathVal(v.value.path.Joined(segment.value)))
    case Call(func, args, _) =>
      if IsPathCall(e) then OptionPath(EvalJoined(args, env))
      else if IsFileCall(e) then
        var v := Eval(args[0], env);
        if v.Some? && v.value.Located? then Some(File(v.value.path)) else None
      else if IsResolveCall(e) then
        var v := Eval(func.value, env);
        if v.None? then None else Resolved(env, v.value, func.attr)
      else if IsBareCall(e) then
        if func.Name? then Lookup(env.answers, func.id)
        else if IsOwnReceiver(func.value) then Lookup(env.answers, func.attr)
        else
          var v := Eval(func.value, env);
          if v.None? then None else env.invoke(v.value, func.attr)
      else None
  }

  function OptionPath(path: Option<Path>): Option<Val>
  {
    if path.Some? then Some(PathVal(path.value)) else None
  }

  /** `Path(a, b, ...)`: each argument joined onto the ones before it. */
  function EvalJoined(args: seq<Expr>, env: Env): Option<Path>
    requires |args| > 0
    decreases args, 0
  {
    var last := AsPath(Eval(args[|args| - 1], env));
    if |args| == 1 then last
    else
      var before := EvalJoined(args[..|args| - 1], env);
      if before.None? || last.None? then None else Some(before.value.Joined(last.value))
  }

  // The resolver.

  datatype Key = Variable(name: string) | Helper(name: string)

  type Bindings = map<Key, Path>

  datatype Reading = Known(path: Path) | ParentsOf(path: Path) | Unknown

  function Bound(bindings: Bindings, key: Key): Reading
  {
    if key in bindings then Known(bindings[key]) else Unknown
  }

  function Resolve(e: Expr, file: Path, bindings: Bindings): Reading
    decreases e, 0
  {
    match e
    case Name(id) => Bound(bindings, Variable(id))
    case Call(func, args, _) =>
      if IsPathCall(e) then ResolveModuleFile(args[0], file, bindings)
      else if IsResolveCall(e) then Resolve(func.value, file, bindings)
      else if IsBareCall(e) then Bound(bindings, Helper(CalledName(func).value))
      else Unknown
    case Attribute(value, attr) =>
      var base := Resolve(value, file, bindings);
      if !base.Known? then Unknown
      else if attr == "parent" then Known(base.path.Parent())
      else if attr == "parents" then ParentsOf(base.path)
      else Unknown
    case Subscript(value, index) =>
      var base := Resolve(value, file, bindings);
      if base.ParentsOf? && index.Int? && base.path.Ancestor(index.number).Some?
      then Known(base.path.Ancestor(index.number).value)
      else Unknown
    case Div(left, right) =>
      var base := Resolve(left, file, bindings);
      if base.Known? && right.Str? then Known(base.path.Joined(Parse(right.text))) else Unknown
    case _ => Unknown
  }

  function ResolveModuleFile(e: Expr, file: Path, bindings: Bindings): Reading
    decreases e, 1
  {
    if e == Name("__file__") then Known(file)
    else if e.Attribute? && e.attr == "__file__" && e.value.Name? then Bound(bindings, Variable(e.value.id))
    else if IsFileCall(e) && e.args[0].Name? then Bound(bindings, Variable(e.args[0].id))
    else
      var resolved := Resolve(e, file, bindings);
      if resolved.Known? then resolved else Unknown
  }

  // Soundness.

  /** A binding is right about a value that is the path, or an object loaded from it. */
  predicate Stands(v: Val, path: Path)
  {
    v == PathVal(path) || v == Located(path)
  }

  /** The bindings are right about every variable and helper that has a value, and name no path with a way up in it. */
  ghost predicate Agree(bindings: Bindings, env: Env)
  {
    && AllPlain(bindings, env.file)
    && Variable("__file__") !in bindings
    && (forall name :: Variable(name) in bindings && name in env.names ==>
      Stands(env.names[name], bindings[Variable(name)]))
    && (forall name :: Helper(name) in bindings && name in env.answers ==>
      Stands(env.answers[name], bindings[Helper(name)]))
  }

  /** No literal segment of the expression goes up. */
  predicate Level(e: Expr)
  {
    match e
    case Attribute(value, _) => Level(value)
    case Subscript(base, _) => Level(base)
    case Div(left, right) => Level(left) && (right.Str? ==> ".." !in Parse(right.text).parts)
    case Call(func, args, _) =>
      && (IsPathCall(e) ==> Level(args[0]))
      && (IsResolveCall(e) ==> Level(func.value))
    case _ => true
  }

  /** What the resolver takes for granted: `Path` of one argument, helpers called plainly or on `self`, and no segment
      going up where `resolve` would act on it. */
  predicate Regular(e: Expr)
  {
    match e
    case Attribute(value, _) => Regular(value)
    case Subscript(base, _) => Regular(base)
    case Div(left, right) => Regular(left)
    case Call(func, args, _) =>
      && (IsPathCall(e) ==> |args| == 1 && Regular(args[0]))
      && (IsResolveCall(e) ==> Regular(func.value) && Level(func.value))
      && (IsBareCall(e) && func.Attribute? ==> IsOwnReceiver(func.value))
    case _ => true
  }

  predicate Fits(reading: Reading, v: Option<Val>)
  {
    && (reading.Known? && v.Some? ==> Stands(v.value, reading.path))
    && (reading.ParentsOf? && v.Some? ==> v.value == Parents(reading.path))
  }

  ghost predicate AllPlain(bindings: Bindings, file: Path)
  {
    file.Plain() && forall key :: key in bindings ==> bindings[key].Plain()
  }

  lemma {:induction false} LevelIsPlain(e: Expr, file: Path, bindings: Bindings)
    requires Level(e) && AllPlain(bindings, file)
    ensures !Resolve(e, file, bindings).Unknown? ==> Resolve(e, file, bindings).path.Plain()
    ensures !ResolveModuleFile(e, file, bindings).Unknown? ==> ResolveModuleFile(e, file, bindings).path.Plain()
  {
    hide Parse;
    match e
    case Attribute(value, _) => LevelIsPlain(value, file, bindings);
    case Subscript(base, _) => LevelIsPlain(base, file, bindings);
    case Div(left, _) => LevelIsPlain(left, file, bindings);
    case Call(func, args, _) =>
      if IsPathCall(e) {
        LevelIsPlain(args[0], file, bindings);
      } else if IsResolveCall(e) {
        LevelIsPlain(func.value, file, bindings);
      }
    case _ =>
  }

  /** On a regular expression, what the resolver reads is what running the expression gives. */
  lemma {:induction false} ResolveIsSound(e: Expr, bindings: Bindings, env: Env)
    requires Agree(bindings, env) && Regular(e)
    ensures Fits(Resolve(e, env.file, bindings), Eval(e, env))
    decreases e, 0
  {
    hide Parse, Collapsed;
    match e
    case Attribute(value, _) => ResolveIsSound(value, bindings, env);
    case Subscript(base, _) => ResolveIsSound(base, bindings, env);
    case Div(left, right) => ResolveIsSound(left, bindings, env);
    case Call(func, args, _) =>
      if IsPathCall(e) {
        ModuleFileIsSound(args[0], bindings, env);
      } else if IsResolveCall(e) {
        ResolveIsSound(func.value, bindings, env);
        LevelIsPlain(func.value, env.file, bindings);
        var reading := Resolve(func.value, env.file, bindings);
        if !reading.Unknown? {
          CollapsedIsSameIff(reading.path.parts);
        }
      }
    case _ =>
  }

  lemma {:induction false} ModuleFileIsSound(e: Expr, bindings: Bindings, env: Env)
    requires Agree(bindings, env) && Regular(e)
    ensures var reading, v := ResolveModuleFile(e, env.file, bindings), AsPath(Eval(e, env));
      !reading.ParentsOf? && (reading.Known? && v.Some? ==> v.value == reading.path)
    decreases e, 1
  {
    hide Parse, Collapsed;
    if e.Attribute? && e.attr == "__file__" && e.value.Name? {
    } else if IsFileCall(e) && e.args[0].Name? {
    } else if e != Name("__file__") {
      ResolveIsSound(e, bindings, env);
    }
  }

  // What a reading depends on.

  /** The names and helpers a reading of the expression looks up. */
  function Mentions(e: Expr): set<Key>
  {
    match e
    case Name(id) => {Variable(id)}
    case Attribute(value, _) => Mentions(value)
    case Subscript(base, _) => Mentions(base)
    case Div(left, _) => Mentions(left)
    case Call(func, args, _) =>
      (if IsPathCall(e) && args[0] != Name("__file__") then Mentions(args[0]) else {})
      + (if IsResolveCall(e) then Mentions(func.value) else {})
      + (if IsBareCall(e) then {Helper(CalledName(func).value)} else {})
      + (if IsFileCall(e) then Mentions(args[0]) else {})
    case _ => {}
  }

  /** Every one of these keys bound in `bindings` is bound to the same path in `others`. */
  ghost predicate KeptIn(keys: set<Key>, bindings: Bindings, others: Bindings)
  {
    forall key :: key in keys && key in bindings ==> key in others && others[key] == bindings[key]
  }

  /** A reading carries over to bindings that keep what it looks up. */
  lemma {:induction false} ReadingCarries(e: Expr, file: Path, bindings: Bindings, others: Bindings)
    requires KeptIn(Mentions(e), bindings, others)
    ensures !Resolve(e, file, bindings).Unknown? ==> Resolve(e, file, others) == Resolve(e, file, bindings)
    ensures !ResolveModuleFile(e, file, bindings).Unknown? ==>
      ResolveModuleFile(e, file, others) == ResolveModuleFile(e, file, bindings)
  {
    hide Parse;
    match e
    case Attribute(value, _) => ReadingCarries(value, file, bindings, others);
    case Subscript(base, _) => ReadingCarries(base, file, bindings, others);
    case Div(left, _) => ReadingCarries(left, file, bindings, others);
    case Call(func, args, _) =>
      if IsPathCall(e) && args[0] != Name("__file__") {
        ReadingCarries(args[0], file, bindings, others);
      } else if IsResolveCall(e) {
        ReadingCarries(func.value, file, bindings, others);
      }
    case _ =>
  }

  // Name spaces that grow.

  /** The same name space with more names in it, and more objects answering calls. */
  ghost predicate Grows(env: Env, later: Env)
  {
    && later == env.(names := later.names, invoke := later.invoke)
    && (forall name :: name in env.names ==> name in later.names && later.names[name] == env.names[name])
    && (forall v, method_ :: env.invoke(v, method_).Some? ==> later.invoke(v, method_) == env.invoke(v, method_))
  }

  /** A value once there stays, whatever further names are given one. */
  lemma {:induction false} EvalGrows(e: Expr, env: Env, later: Env)
    requires Grows(env, later) && Eval(e, env).Some?
    ensures Eval(e, later) == Eval(e, env)
    decreases e, 1
  {
    hide Parse, Collapsed, Path.Joined;
    match e
    case Attribute(value, _) => EvalGrows(value, env, later);
    case Subscript(base, _) => EvalGrows(base, env, later);
    case Div(left, right) =>
      EvalGrows(left, env, later);
      EvalGrows(right, env, later);
    case Call(func, args, _) =>
      if IsPathCall(e) {
        JoinedGrows(args, env, later);
      } else if IsFileCall(e) {
        EvalGrows(args[0], env, later);
      } else if IsResolveCall(e) || (func.Attribute? && !IsOwnReceiver(func.value)) {
        EvalGrows(func.value, env, later);
      }
    case _ =>
  }

  lemma {:induction false} JoinedGrows(args: seq<Expr>, env: Env, later: Env)
    requires |args| > 0 && Grows(env, later) && EvalJoined(args, env).Some?
    ensures EvalJoined(args, later) == EvalJoined(args, env)
    decreases args, 0
  {
    hide Path.Joined, Grows;
    EvalGrows(args[|args| - 1], env, later);
    if |args| > 1 {
      JoinedGrows(args[..|args| - 1], env, later);
    }
  }

  // What the resolver is sure to read.

  /** A variable the script has a binding for, and which is a path. */
  predicate IsPathName(e: Expr, env: Env, keys: set<Key>)
  {
    e.Name? && e.id != "__file__" && Variable(e.id) in keys && e.id in env.names && env.names[e.id].PathVal?
  }

  /** A variable the script has a binding for, and which was loaded from a file. */
  predicate IsLocatedName(e: Expr, env: Env, keys: set<Key>)
  {
    e.Name? && e.id != "__file__" && Variable(e.id) in keys && e.id in env.names && env.names[e.id].Located?
  }

  predicate IsHelperCall(e: Expr, env: Env, keys: set<Key>)
  {
    && IsBareCall(e) && (e.func.Name? || IsOwnReceiver(e.func.value))
    && var name := CalledName(e.func).value;
      Helper(name) in keys && name in env.answers && env.answers[name].PathVal?
  }

  /** The spellings the resolver handles, built from names and helpers bound under `keys`. */
  predicate Spelled(e: Expr, env: Env, keys: set<Key>)
    decreases e, 0
  {
    match e
    case Name(_) => IsPathName(e, env, keys)
    case Attribute(value, attr) => attr == "parent" && Spelled(value, env, keys)
    case Subscript(Attribute(value, attr), Int(n)) =>
      attr == "parents" && Spelled(value, env, keys) && HasAncestor(Eval(value, env), n)
    case Div(left, right) => right.Str? && Spelled(left, env, keys)
    case Call(func, args, _) =>
      || (IsPathCall(e) && |args| == 1 && SpelledFile(args[0], env, keys))
      || (IsResolveCall(e) && Spelled(func.value, env, keys))
      || IsHelperCall(e, env, keys)
    case _ => false
  }

  predicate SpelledFile(e: Expr, env: Env, keys: set<Key>)
    decreases e, 1
  {
    || e == Name("__file__")
    || (e.Attribute? && e.attr == "__file__" && IsLocatedName(e.value, env, keys))
    || (IsFileCall(e) && IsLocatedName(e.args[0], env, keys))
    || Spelled(e, env, keys)
  }

  predicate HasAncestor(v: Option<Val>, n: nat)
  {
    v.Some? && v.value.PathVal? && n < |v.value.path.parts|
  }

  /** They are all the script says it handles. Of a path so spelled: its parent, its ancestors, what a literal segment
      is joined onto, what it resolves to, and `Path` of it. */
  lemma SpelledIsClosed(x: Expr, env: Env, keys: set<Key>)
    requires Spelled(x, env, keys)
    ensures Spelled(Attribute(x, "parent"), env, keys)
    ensures forall n :: HasAncestor(Eval(x, env), n) ==> Spelled(Subscript(Attribute(x, "parents"), Int(n)), env, keys)
    ensures forall text :: Spelled(Div(x, Str(text)), env, keys)
    ensures forall name, args, keywords :: name in {"resolve", "absolute"} ==>
      Spelled(Call(Attribute(x, name), args, keywords), env, keys)
    ensures forall keywords :: Spelled(Call(Name("Path"), [x], keywords), env, keys)
  {
    hide Eval;
  }

  /** `Path` of the file of a module in each of its three spellings, and a bound name or a helper's answer that is a
      path. */
  lemma FilesAndNamesAreSpelled(id: string, env: Env, keys: set<Key>)
    ensures forall keywords :: Spelled(Call(Name("Path"), [Name("__file__")], keywords), env, keys)
    ensures (id != "__file__" && Variable(id) in keys && id in env.names && env.names[id].Located?) ==>
      && (forall keywords :: Spelled(Call(Name("Path"), [Attribute(Name(id), "__file__")], keywords), env, keys))
      && (forall name, inspect, more, keywords :: name in {"getfile", "getsourcefile"} ==>
            Spelled(Call(Name("Path"), [Call(Attribute(inspect, name), [Name(id)], more)], keywords), env, keys))
    ensures id != "__file__" && Variable(id) in keys && id in env.names && env.names[id].PathVal? ==>
      Spelled(Name(id), env, keys)
    ensures id != "Path" && Helper(id) in keys && id in env.answers && env.answers[id].PathVal? ==>
      && Spelled(Call(Name(id), [], false), env, keys)
      && (id !in {"resolve", "absolute"} ==>
            && Spelled(Call(Attribute(Name("self"), id), [], false), env, keys)
            && Spelled(Call(Attribute(Name("cls"), id), [], false), env, keys))
  {
    hide Eval;
  }

  /** Those spellings are read, and read as what they are. */
  lemma {:induction false} SpellingsAreRead(e: Expr, bindings: Bindings, env: Env, keys: set<Key>)
    requires Agree(bindings, env) && Regular(e) && keys <= bindings.Keys && Spelled(e, env, keys)
    ensures var reading := Resolve(e, env.file, bindings); reading.Known? && Eval(e, env) == Some(PathVal(reading.path))
    decreases e, 0
  {
    hide Parse, Collapsed;
    ResolveIsSound(e, bindings, env);
    match e
    case Attribute(value, _) => SpellingsAreRead(value, bindings, env, keys);
    case Subscript(Attribute(value, _), Int(n)) => SpellingsAreRead(value, bindings, env, keys);
    case Div(left, _) => SpellingsAreRead(left, bindings, env, keys);
    case Call(func, args, _) =>
      if IsPathCall(e) && |args| == 1 && SpelledFile(args[0], env, keys) {
        FileSpellingsAreRead(args[0], bindings, env, keys);
      } else if IsResolveCall(e) && Spelled(func.value, env, keys) {
        SpellingsAreRead(func.value, bindings, env, keys);
      }
    case _ =>
  }

  lemma {:induction false} FileSpellingsAreRead(e: Expr, bindings: Bindings, env: Env, keys: set<Key>)
    requires Agree(bindings, env) && Regular(e) && keys <= bindings.Keys && SpelledFile(e, env, keys)
    ensures var reading := ResolveModuleFile(e, env.file, bindings);
      reading.Known? && AsPath(Eval(e, env)) == Some(reading.path)
    decreases e, 1
  {
    hide Parse, Collapsed;
    ModuleFileIsSound(e, bindings, env);
    if Spelled(e, env, keys) {
      SpellingsAreRead(e, bindings, env, keys);
    }
  }

  // What the resolver takes for granted, and exactly when that is wrong.

  /** `path / extras[0] / extras[1] / ...`. */
  function JoinedAll(path: Path, extras: seq<Path>): Path
  {
    if |extras| == 0 then path else JoinedAll(path, extras[..|extras| - 1]).Joined(extras[|extras| - 1])
  }

  /** Later arguments act together like the one path they make by themselves. */
  lemma {:induction false} ExtrasActAsOne(path: Path, extras: seq<Path>)
    ensures JoinedAll(path, extras) == path.Joined(JoinedAll(Path(false, []), extras))
  {
    if |extras| == 0 {
      assert path.parts + [] == path.parts;
    } else {
      var init, last := extras[..|extras| - 1], extras[|extras| - 1];
      ExtrasActAsOne(path, init);
      assert !last.absolute ==>
        forall rest: Path :: path.parts + (rest.parts + last.parts) == (path.parts + rest.parts) + last.parts;
    }
  }

  ghost predicate EvaluateTo(args: seq<Expr>, env: Env, paths: seq<Path>)
  {
    |args| == |paths| && forall i :: 0 <= i < |args| ==> AsPath(Eval(args[i], env)) == Some(paths[i])
  }

  lemma {:induction false} JoinedIsAll(args: seq<Expr>, env: Env, paths: seq<Path>)
    requires |args| > 0 && EvaluateTo(args, env, paths)
    ensures EvalJoined(args, env) == Some(JoinedAll(paths[0], paths[1..]))
  {
    hide Path.Joined, Eval, AsPath;
    var n := |args| - 1;
    if n > 0 {
      JoinedIsAll(args[..n], env, paths[..n]);
      assert paths[1..][..n - 1] == paths[..n][1..] && paths[1..][n - 1] == paths[n];
    }
  }

  /** `Path(a, b, c, ...)` is read as `Path(a)`: right exactly when the later arguments together name nothing, or name
      `a` itself from the root. */
  lemma LaterArgumentsAreDropped(func: Expr, args: seq<Expr>, keywords: bool, bindings: Bindings, env: Env,
      paths: seq<Path>)
    requires CalledName(func) == Some("Path") && |args| > 1 && EvaluateTo(args, env, paths)
    requires Agree(bindings, env) && Regular(args[0]) && ResolveModuleFile(args[0], env.file, bindings).Known?
    ensures var e, extra := Call(func, args, keywords), JoinedAll(Path(false, []), paths[1..]);
      && Resolve(e, env.file, bindings) == Known(paths[0])
      && Eval(e, env) == Some(PathVal(paths[0].Joined(extra)))
      && (Fits(Resolve(e, env.file, bindings), Eval(e, env)) <==>
            if extra.absolute then extra == paths[0] else extra.parts == [])
  {
    hide Resolve, ResolveModuleFile, Regular, Agree, JoinedAll, EvalJoined;
    ModuleFileIsSound(args[0], bindings, env);
    JoinedIsAll(args, env, paths);
    ExtrasActAsOne(paths[0], paths[1..]);
    PathCallIsItsFirst(func, args, keywords, env.file, bindings);
    var path, extra := paths[0], JoinedAll(Path(false, []), paths[1..]);
    assert !extra.absolute ==> (path.parts + extra.parts == path.parts <==> extra.parts == []) by {
      assert |path.parts + extra.parts| == |path.parts| + |extra.parts|;
      assert path.parts + [] == path.parts;
    }
  }

  lemma PathCallIsItsFirst(func: Expr, args: seq<Expr>, keywords: bool, file: Path, bindings: Bindings)
    requires CalledName(func) == Some("Path") && |args| > 0
    ensures Resolve(Call(func, args, keywords), file, bindings) == ResolveModuleFile(args[0], file, bindings)
  {
  }

  /** `.resolve()` is read as doing nothing: right exactly when nothing in the path goes up. */
  lemma ResolveCallIsIdentityIff(x: Expr, bindings: Bindings, env: Env, path: Path)
    requires path.absolute && Resolve(x, env.file, bindings) == Known(path) && Eval(x, env) == Some(PathVal(path))
    ensures var e := Call(Attribute(x, "resolve"), [], false);
      && Resolve(e, env.file, bindings) == Known(path)
      && (Eval(e, env) == Some(PathVal(path)) <==> ".." !in path.parts)
  {
    CollapsedIsSameIff(path.parts);
  }

  /** A call without arguments is read as the module's own helper whatever it is called on. Of a receiver that can have
      a value, that is right in every agreeing name space if and only if the receiver is `self` or `cls`. */
  lemma ReceiverIsIgnored(x: Expr, name: string, bindings: Bindings, env: Env)
    requires name !in {"Path", "resolve", "absolute"} && Helper(name) in bindings && Agree(bindings, env)
    requires Eval(x, env).Some? && forall v :: env.invoke(v, name).None?
    ensures var e := Call(Attribute(x, name), [], false);
      && Resolve(e, env.file, bindings) == Known(bindings[Helper(name)])
      && ((forall other: Env :: other.file == env.file && Agree(bindings, other) ==>
             Fits(Resolve(e, env.file, bindings), Eval(e, other)))
          <==> x == Name("self") || x == Name("cls"))
  {
    var e := Call(Attribute(x, name), [], false);
    if IsOwnReceiver(x) {
      forall other: Env | other.file == env.file && Agree(bindings, other)
        ensures Fits(Resolve(e, env.file, bindings), Eval(e, other))
      {
        ResolveIsSound(e, bindings, other);
      }
    } else {
      var other := env.(invoke := (v, method_) => if method_ == name then Some(Thing(0)) else env.invoke(v, method_));
      EvalGrows(x, env, other);
      assert Eval(e, other) == Some(Thing(0));
      assert Agree(bindings, other);
    }
  }
}
