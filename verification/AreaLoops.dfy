/** scripts/check_whole_tree_graders.py: walks of `base / <loop variable>`, one area of the tree in each turn of a
    loop. */
module AreaLoops {
  import opened Options
  import Text
  import opened Paths
  import opened PathExpressions
  import opened WalkScopes

  datatype Element = Segment(text: string) | NotText

  /** What a loop iterates: a container written out, a name of the module, a name of the function around it, which holds
      these elements where the source shows them, or anything else. */
  datatype Iterable =
    | Container(elements: seq<Element>)
    | ByName(name: string)
    | ByLocal(name: string, held: Option<seq<Element>>)
    | Opaque

  /** A loop, and after how many of the module's statements it may run: just one number for a loop of the module itself,
      any for one in a function. */
  datatype Loop = Loop(variable: string, iterable: Iterable, moments: set<nat>)

  /** A module's own assignment. Anything else that changes what a name holds is one of something opaque. */
  datatype Statement = Statement(name: string, value: Iterable)

  // What the script reads.

  /** The texts of a container that holds nothing else. */
  function Texts(elements: seq<Element>): Option<seq<string>>
  {
    if |elements| == 0 then Some([])
    else
      var init, last := Texts(elements[..|elements| - 1]), elements[|elements| - 1];
      if init.None? || last.NotText? then None else Some(init.value + [last.text])
  }

  lemma {:induction false} TextsAreElements(elements: seq<Element>)
    ensures Texts(elements).Some? ==>
      && |Texts(elements).value| == |elements|
      && forall k :: 0 <= k < |elements| ==> elements[k] == Segment(Texts(elements).value[k])
    ensures Texts(elements).None? ==> exists k :: 0 <= k < |elements| && elements[k].NotText?
  {
    if |elements| > 0 {
      var init, last := elements[..|elements| - 1], elements[|elements| - 1];
      TextsAreElements(init);
      assert forall k :: 0 <= k < |init| ==> init[k] == elements[k];
    }
  }

  function LiteralSegments(iterable: Iterable, sequences: map<string, seq<string>>): seq<string>
  {
    match iterable
    case Container(elements) => if Texts(elements).Some? then Texts(elements).value else []
    case ByName(name) => if name in sequences then sequences[name] else []
    case ByLocal(name, _) => if name in sequences then sequences[name] else []
    case Opaque => []
  }

  /** The names assigned a literal sequence. A later assignment of anything else leaves the sequence in place. */
  function Sequences(statements: seq<Statement>): map<string, seq<string>>
  {
    if |statements| == 0 then map[]
    else
      var before, last := Sequences(statements[..|statements| - 1]), statements[|statements| - 1];
      var found := LiteralSegments(last.value, map[]);
      if found == [] then before else before[last.name := found]
  }

  predicate Gives(loop: Loop, sequences: map<string, seq<string>>, variable: string, segment: string)
  {
    loop.variable == variable && segment in LiteralSegments(loop.iterable, sequences)
  }

  /** Some loop the script understands gives the variable this segment. */
  ghost predicate Takes(loops: seq<Loop>, sequences: map<string, seq<string>>, variable: string, segment: string)
  {
    exists i :: 0 <= i < |loops| && Gives(loops[i], sequences, variable, segment)
  }

  predicate Holds(segments: map<string, set<string>>, variable: string, segment: string)
  {
    variable in segments && segment in segments[variable]
  }

  /** Every variable is held to take the segments its loops give, and no others. */
  ghost predicate AreSegments(segments: map<string, set<string>>, loops: seq<Loop>, sequences: map<string, seq<string>>)
  {
    forall variable, segment :: Holds(segments, variable, segment) <==> Takes(loops, sequences, variable, segment)
  }

  function WithSegments(segments: map<string, set<string>>, variable: string,
      found: seq<string>): map<string, set<string>>
  {
    var known := if variable in segments then segments[variable] else {};
    segments[variable := known + set segment | segment in found]
  }

  lemma AddedSegments(segments: map<string, set<string>>, variable: string, found: seq<string>)
    ensures forall name, segment :: Holds(WithSegments(segments, variable, found), name, segment) <==>
      Holds(segments, name, segment) || (name == variable && segment in found)
  {
  }

  /** `_segment_bindings`: the module's sequences first, and then every loop of the file. */
  method SegmentBindings(statements: seq<Statement>, loops: seq<Loop>) returns (segments: map<string, set<string>>)
    ensures AreSegments(segments, loops, Sequences(statements))
  {
    var sequences: map<string, seq<string>> := map[];
    for i := 0 to |statements|
      invariant sequences == Sequences(statements[..i])
    {
      assert statements[..i + 1][..i] == statements[..i];
      var found := LiteralSegments(statements[i].value, map[]);
      if |found| > 0 {
        sequences := sequences[statements[i].name := found];
      }
    }
    assert statements[..|statements|] == statements;
    segments := map[];
    for i := 0 to |loops|
      invariant AreSegments(segments, loops[..i], sequences)
    {
      hide LiteralSegments;
      var found := LiteralSegments(loops[i].iterable, sequences);
      forall name, segment
        ensures Takes(loops[..i + 1], sequences, name, segment) <==>
          Takes(loops[..i], sequences, name, segment) || Gives(loops[i], sequences, name, segment)
      {
        OneMoreLoop(loops, sequences, i, name, segment);
      }
      hide Takes, Holds, WithSegments;
      AddedSegments(segments, loops[i].variable, found);
      if |found| > 0 {
        segments := WithSegments(segments, loops[i].variable, found);
      }
    }
    assert loops[..|loops|] == loops;
  }

  lemma OneMoreLoop(loops: seq<Loop>, sequences: map<string, seq<string>>, i: nat, variable: string, segment: string)
    requires i < |loops|
    ensures Takes(loops[..i + 1], sequences, variable, segment) <==>
      Takes(loops[..i], sequences, variable, segment) || Gives(loops[i], sequences, variable, segment)
  {
    hide Gives;
    var less, more := loops[..i], loops[..i + 1];
    assert more == less + [loops[i]];
    assert forall j :: 0 <= j < i ==> more[j] == less[j];
    assert more[i] == loops[i];
  }

  function AreaPaths(receiver: Expr, file: Path, bindings: Bindings, segments: map<string, set<string>>): set<Path>
  {
    if receiver.Div? && receiver.right.Name? && receiver.right.id in segments
      && Resolve(receiver.left, file, bindings).Known?
    then
      var base := Resolve(receiver.left, file, bindings).path;
      set segment | segment in segments[receiver.right.id] :: base.Joined(Parse(segment))
    else {}
  }

  /** Every path of the area is one some segment read for the variable leads to. */
  lemma AreaPathsAreReached(
      receiver: Expr, file: Path, bindings: Bindings, loops: seq<Loop>, sequences: map<string, seq<string>>,
      segments: map<string, set<string>>, path: Path)
    requires AreSegments(segments, loops, sequences)
    ensures path in AreaPaths(receiver, file, bindings, segments) <==>
      && receiver.Div? && receiver.right.Name? && Resolve(receiver.left, file, bindings).Known?
      && exists segment :: Takes(loops, sequences, receiver.right.id, segment)
           && path == Resolve(receiver.left, file, bindings).path.Joined(Parse(segment))
  {
    hide Parse, Resolve, Takes, Path.Joined;
    if receiver.Div? && receiver.right.Name? {
      assert forall segment :: Holds(segments, receiver.right.id, segment) <==>
        Takes(loops, sequences, receiver.right.id, segment);
    }
  }

  // What the loops really iterate.

  /** What a name of the module holds after these statements. */
  function LastOf(statements: seq<Statement>, name: string): Option<Iterable>
  {
    if |statements| == 0 then None
    else if statements[|statements| - 1].name == name then Some(statements[|statements| - 1].value)
    else LastOf(statements[..|statements| - 1], name)
  }

  /** The elements iterated after these statements, where the source shows them. */
  function Shown(iterable: Iterable, statements: seq<Statement>): Option<seq<Element>>
  {
    match iterable
    case Container(elements) => Some(elements)
    case ByName(name) =>
      var last := LastOf(statements, name);
      if last.Some? && last.value.Container? then Some(last.value.elements) else None
    case ByLocal(_, held) => held
    case Opaque => None
  }

  function Until(statements: seq<Statement>, moment: nat): seq<Statement>
  {
    if moment <= |statements| then statements[..moment] else statements
  }

  /** The texts iterated after these statements, where the source shows every element and all are text. */
  function ShownTexts(iterable: Iterable, statements: seq<Statement>): Option<seq<string>>
  {
    var shown := Shown(iterable, statements);
    if shown.None? then None else Texts(shown.value)
  }

  /** The values of elements shown: their text, and any for what is not text. */
  predicate AreValues(turn: seq<Val>, elements: seq<Element>)
  {
    && |turn| == |elements|
    && forall k :: 0 <= k < |turn| && elements[k].Segment? ==> turn[k] == Val.Text(elements[k].text)
  }

  /** The values a loop takes when it runs at this moment: those shown, and any where nothing is. */
  predicate IsTurnAt(turn: seq<Val>, loop: Loop, statements: seq<Statement>, moment: nat)
  {
    var shown := Shown(loop.iterable, Until(statements, moment));
    moment in loop.moments && (shown.Some? ==> AreValues(turn, shown.value))
  }

  /** In a run each loop is left out, or runs at one of its moments. */
  ghost predicate TurnsAgree(turns: seq<seq<Val>>, loops: seq<Loop>, statements: seq<Statement>)
  {
    && |turns| == |loops|
    && forall i :: 0 <= i < |loops| ==>
         turns[i] == [] || exists moment :: IsTurnAt(turns[i], loops[i], statements, moment)
  }

  lemma {:induction false} LastIsRead(statements: seq<Statement>, name: string)
    ensures var last := LastOf(statements, name);
      last.Some? && LiteralSegments(last.value, map[]) != [] ==>
        name in Sequences(statements) && Sequences(statements)[name] == LiteralSegments(last.value, map[])
  {
    hide LiteralSegments;
    if |statements| > 0 {
      LastIsRead(statements[..|statements| - 1], name);
    }
  }

  /** What is iterated once the module is complete is what the script reads, where it is shown and text and the name is
      the module's. */
  lemma CompleteIsRead(iterable: Iterable, statements: seq<Statement>, text: string)
    requires !iterable.ByLocal? && ShownTexts(iterable, statements).Some?
    requires text in ShownTexts(iterable, statements).value
    ensures text in LiteralSegments(iterable, Sequences(statements))
  {
    hide Texts;
    if iterable.ByName? {
      LastIsRead(statements, iterable.name);
    }
  }

  // When the area covers the walk.

  /** The name space in a turn: the loop's variable takes one of these values, whatever it was bound to outside. */
  ghost predicate InTurn(env: Env, file: Path, bindings: Bindings, variable: string, turn: seq<Val>)
  {
    && env.file == file && Agree(bindings - {Variable(variable)}, env)
    && variable in env.names && env.names[variable] in turn
  }

  /** The walk goes to a path of the area, unless the expression raises. */
  ghost predicate Lands(receiver: Expr, env: Env, area: set<Path>)
  {
    var v := Eval(receiver, env);
    v.Some? ==> v.value.PathVal? && v.value.path in area
  }

  /** In every run and every turn of every loop over the variable, the walk goes to a path of the area. */
  ghost predicate EveryTurnLands(
    left: Expr, variable: string, loops: seq<Loop>, statements: seq<Statement>,
    file: Path, bindings: Bindings, area: set<Path>)
  {
    forall turns, i, env: Env ::
      && TurnsAgree(turns, loops, statements) && 0 <= i < |loops| && loops[i].variable == variable
      && InTurn(env, file, bindings, variable, turns[i])
      ==> Lands(Div(left, Name(variable)), env, area)
  }

  /** The text leads from the base where some segment read for the variable leads. */
  ghost predicate IsRead(text: string, variable: string, loops: seq<Loop>, statements: seq<Statement>, base: Path)
  {
    exists segment ::
      Takes(loops, Sequences(statements), variable, segment) && base.Joined(Parse(text)) == base.Joined(Parse(segment))
  }

  /** At this moment all the loop iterates is shown, is text, and is read. */
  ghost predicate IsCoveredAt(loop: Loop, moment: nat, loops: seq<Loop>, statements: seq<Statement>, base: Path)
  {
    var texts := ShownTexts(loop.iterable, Until(statements, moment));
    texts.Some? && forall text :: text in texts.value ==> IsRead(text, loop.variable, loops, statements, base)
  }

  /** At every moment it may run. */
  ghost predicate IsCovered(loop: Loop, loops: seq<Loop>, statements: seq<Statement>, base: Path)
  {
    forall moment :: moment in loop.moments ==> IsCoveredAt(loop, moment, loops, statements, base)
  }

  ghost predicate AllCovered(variable: string, loops: seq<Loop>, statements: seq<Statement>, base: Path)
  {
    forall i :: 0 <= i < |loops| && loops[i].variable == variable ==> IsCovered(loops[i], loops, statements, base)
  }

  /** A base the variable has no part in, read as a path. */
  predicate IsBase(left: Expr, variable: string, file: Path, bindings: Bindings)
  {
    && Regular(left) && ResolvesNoParents(left) && Resolve(left, file, bindings).Known?
    && Variable(variable) !in Mentions(left) && variable != "__file__"
  }

  lemma BaseCarries(left: Expr, variable: string, file: Path, bindings: Bindings)
    requires IsBase(left, variable, file, bindings)
    ensures Resolve(left, file, bindings - {Variable(variable)}) == Resolve(left, file, bindings)
  {
    hide Regular, ResolvesNoParents, Resolve, Mentions;
    ReadingCarries(left, file, bindings, bindings - {Variable(variable)});
  }

  ghost predicate IsLastOf(statements: seq<Statement>, j: nat, name: string)
    requires j < |statements|
  {
    statements[j].name == name && forall k :: j < k < |statements| ==> statements[k].name != name
  }

  /** The texts stand where the loop takes them from: in the literal it iterates, or in the last that the module assigns
      to the name it iterates. */
  ghost predicate StandsWritten(iterable: Iterable, statements: seq<Statement>, texts: seq<string>)
  {
    var literal := Container(seq(|texts|, k requires 0 <= k < |texts| => Segment(texts[k])));
    || iterable == literal
    || (iterable.ByName?
          && exists j :: 0 <= j < |statements| && IsLastOf(statements, j, iterable.name)
               && statements[j].value == literal)
  }

  lemma {:induction false} LastStands(statements: seq<Statement>, name: string, j: nat)
    requires j < |statements| && IsLastOf(statements, j, name)
    ensures LastOf(statements, name) == Some(statements[j].value)
  {
    if j < |statements| - 1 {
      LastStands(statements[..|statements| - 1], name, j);
    }
  }

  lemma {:induction false} TextsOfSegments(elements: seq<Element>)
    requires forall k :: 0 <= k < |elements| ==> elements[k].Segment?
    ensures Texts(elements).Some?
  {
    if |elements| > 0 {
      TextsOfSegments(elements[..|elements| - 1]);
    }
  }

  lemma WrittenIsShown(iterable: Iterable, statements: seq<Statement>, texts: seq<string>)
    requires StandsWritten(iterable, statements, texts)
    ensures !iterable.ByLocal? && ShownTexts(iterable, statements).Some?
  {
    var elements := seq(|texts|, k requires 0 <= k < |texts| => Segment(texts[k]));
    TextsOfSegments(elements);
    if iterable.ByName? {
      var j :| 0 <= j < |statements| && IsLastOf(statements, j, iterable.name)
        && statements[j].value == Container(elements);
      LastStands(statements, iterable.name, j);
    }
  }

  /** Run only when the module is complete, a loop of a literal of texts, or of a module's name that holds one, is
      covered. */
  lemma CompleteIsCovered(i: nat, loops: seq<Loop>, statements: seq<Statement>, base: Path, texts: seq<string>)
    requires i < |loops| && StandsWritten(loops[i].iterable, statements, texts)
    requires forall moment :: moment in loops[i].moments ==> moment >= |statements|
    ensures IsCovered(loops[i], loops, statements, base)
  {
    WrittenIsShown(loops[i].iterable, statements, texts);
    hide Parse, LiteralSegments, ShownTexts;
    var loop := loops[i];
    forall text | text in ShownTexts(loop.iterable, statements).value
      ensures IsRead(text, loop.variable, loops, statements, base)
    {
      CompleteIsRead(loop.iterable, statements, text);
      assert Gives(loops[i], Sequences(statements), loop.variable, text);
      assert Takes(loops, Sequences(statements), loop.variable, text);
    }
    forall moment | moment in loop.moments ensures IsCoveredAt(loop, moment, loops, statements, base) {
      assert Until(statements, moment) == statements;
    }
  }

  /** What a covered loop takes in a run is text that is read. */
  lemma CoveredIsRead(loop: Loop, moment: nat, loops: seq<Loop>, statements: seq<Statement>, base: Path, turn: seq<Val>,
      v: Val)
    requires IsTurnAt(turn, loop, statements, moment) && v in turn
    requires IsCoveredAt(loop, moment, loops, statements, base)
    ensures v.Text? && IsRead(v.text, loop.variable, loops, statements, base)
  {
    hide Texts, IsRead;
    var elements := Shown(loop.iterable, Until(statements, moment)).value;
    TextsAreElements(elements);
    var k :| 0 <= k < |turn| && turn[k] == v;
    assert elements[k] == Segment(Texts(elements).value[k]);
    assert v.text in Texts(elements).value;
  }

  /** A segment that is read leads into the area. */
  lemma ReadIsInArea(text: string, left: Expr, variable: string, loops: seq<Loop>, statements: seq<Statement>,
      file: Path, bindings: Bindings, segments: map<string, set<string>>)
    requires Resolve(left, file, bindings).Known? && AreSegments(segments, loops, Sequences(statements))
    ensures var base := Resolve(left, file, bindings).path;
      base.Joined(Parse(text)) in AreaPaths(Div(left, Name(variable)), file, bindings, segments)
      <==> IsRead(text, variable, loops, statements, base)
  {
    hide Parse, Resolve, Path.Joined, Takes;
    var base := Resolve(left, file, bindings).path;
    AreaPathsAreReached(Div(left, Name(variable)), file, bindings, loops, Sequences(statements), segments,
      base.Joined(Parse(text)));
  }

  /** A turn of a covered loop lands in the area. */
  lemma CoveredTurnLands(
      left: Expr, loops: seq<Loop>, statements: seq<Statement>, file: Path, bindings: Bindings,
      segments: map<string, set<string>>, i: nat, turn: seq<Val>, env: Env)
    requires i < |loops| && IsBase(left, loops[i].variable, file, bindings)
    requires IsCovered(loops[i], loops, statements, Resolve(left, file, bindings).path)
    requires exists moment :: IsTurnAt(turn, loops[i], statements, moment)
    requires AreSegments(segments, loops, Sequences(statements))
    requires InTurn(env, file, bindings, loops[i].variable, turn)
    ensures var receiver := Div(left, Name(loops[i].variable));
      Lands(receiver, env, AreaPaths(receiver, file, bindings, segments))
  {
    hide Parse, Resolve, Regular, ResolvesNoParents, Mentions, IsRead, Agree, Path.Joined, AreaPaths, Shown, ShownTexts;
    hide AreSegments;
    var variable := loops[i].variable;
    var v, base := env.names[variable], Resolve(left, file, bindings).path;
    var moment :| IsTurnAt(turn, loops[i], statements, moment);
    assert IsCoveredAt(loops[i], moment, loops, statements, base);
    CoveredIsRead(loops[i], moment, loops, statements, base, turn, v);
    ReadIsInArea(v.text, left, variable, loops, statements, file, bindings, segments);
    BaseCarries(left, variable, file, bindings);
    ResolveIsSound(left, bindings - {Variable(variable)}, env);
    TurnGoes(left, variable, v, env, base, AreaPaths(Div(left, Name(variable)), file, bindings, segments));
  }

  /** A name longer than the last part of every one of these paths. */
  lemma {:induction false} LongerThanAll(area: set<Path>) returns (n: nat)
    ensures n > 0 && forall path :: path in area && |path.parts| > 0 ==> |path.parts[|path.parts| - 1]| < n
    decreases |area|
  {
    if area == {} {
      n := 1;
    } else {
      var path :| path in area;
      n := LongerThanAll(area - {path});
      if |path.parts| > 0 {
        n := n + |path.parts[|path.parts| - 1]|;
      }
    }
  }

  function LongName(n: nat): string
  {
    seq(n, _ => 'a')
  }

  lemma IsOnePart(text: string)
    requires '/' !in text && text != "" && text != "."
    ensures Parse(text) == Path(false, [text])
  {
    Text.SplitPiece(text, '/');
    assert Named([text][1..]) == [];
  }

  /** A name space where the base is what it is read as and the loop's variable has this value. */
  lemma TurnExists(left: Expr, variable: string, value: Val, file: Path, bindings: Bindings) returns (env: Env)
    requires IsBase(left, variable, file, bindings) && AreProper(bindings, file)
    ensures InTurn(env, file, bindings, variable, [value]) && env.names[variable] == value
    ensures Eval(left, env) == Some(PathVal(Resolve(left, file, bindings).path))
  {
    hide Resolve, Regular, ResolvesNoParents, Mentions, Eval, OfModule;
    var key := OneMention(left);
    var base := Only(file, key, if key in bindings then bindings[key] else file, OfModule(left));
    env := base.(names := base.names[variable := value]);
    KnownHasItsNames(left, file, bindings);
    assert HoldsAll(Mentions(left), bindings, env, OfModule(left));
    ReadIsRun(left, bindings, env);
  }

  /** The values of elements, with this one for what is not text. */
  function Filled(elements: seq<Element>, value: Val): (turn: seq<Val>)
    ensures AreValues(turn, elements)
  {
    seq(|elements|, k requires 0 <= k < |elements| =>
      if elements[k].Segment? then Val.Text(elements[k].text) else value)
  }

  /** At a moment a loop is not covered it has a turn with a text that leads out of the area. */
  lemma OpenTurn(loop: Loop, moment: nat, loops: seq<Loop>, statements: seq<Statement>, base: Path, area: set<Path>)
    returns (turn: seq<Val>, text: string)
    requires moment in loop.moments && !IsCoveredAt(loop, moment, loops, statements, base)
    requires forall text :: base.Joined(Parse(text)) in area ==> IsRead(text, loop.variable, loops, statements, base)
    ensures IsTurnAt(turn, loop, statements, moment) && Val.Text(text) in turn
    ensures base.Joined(Parse(text)) !in area
  {
    hide IsRead, Texts, Parse;
    var shown, texts := Shown(loop.iterable, Until(statements, moment)),
      ShownTexts(loop.iterable, Until(statements, moment));
    if texts.Some? {
      TextsAreElements(shown.value);
      text :| text in texts.value && !IsRead(text, loop.variable, loops, statements, base);
      turn := Filled(shown.value, Val.Text(text));
      var k :| 0 <= k < |texts.value| && texts.value[k] == text;
      assert shown.value[k] == Segment(text) && turn[k] == Val.Text(text);
    } else {
      text := Straying(base, area);
      if shown.Some? {
        TextsAreElements(shown.value);
        turn := Filled(shown.value, Val.Text(text));
        var k :| 0 <= k < |shown.value| && shown.value[k].NotText?;
        assert turn[k] == Val.Text(text);
      } else {
        turn := [Val.Text(text)];
      }
    }
  }

  /** There is always a text that leads out of the area. */
  lemma Straying(base: Path, area: set<Path>) returns (text: string)
    ensures base.Joined(Parse(text)) !in area
  {
    hide Parse;
    var n := LongerThanAll(area);
    text := LongName(n);
    assert text[0] == 'a';
    IsOnePart(text);
    var path := base.Joined(Parse(text));
    assert path.parts[|path.parts| - 1] == text;
  }

  /** A loop that is not covered has a turn that goes out of the area. */
  lemma OpenTurnStrays(
      left: Expr, loops: seq<Loop>, statements: seq<Statement>, file: Path, bindings: Bindings,
      segments: map<string, set<string>>, i: nat)
    requires i < |loops| && IsBase(left, loops[i].variable, file, bindings) && AreProper(bindings, file)
    requires !IsCovered(loops[i], loops, statements, Resolve(left, file, bindings).path)
    requires AreSegments(segments, loops, Sequences(statements))
    ensures !EveryTurnLands(left, loops[i].variable, loops, statements, file, bindings,
      AreaPaths(Div(left, Name(loops[i].variable)), file, bindings, segments))
  {
    hide Parse, Resolve, Regular, ResolvesNoParents, Mentions, IsCoveredAt, IsTurnAt, Agree, OfModule, IsRead,
         AreaPaths;
    hide AreSegments, Path.Joined, Lands;
    var variable, base := loops[i].variable, Resolve(left, file, bindings).path;
    var receiver := Div(left, Name(variable));
    var area := AreaPaths(receiver, file, bindings, segments);
    var moment :| moment in loops[i].moments && !IsCoveredAt(loops[i], moment, loops, statements, base);
    forall text | base.Joined(Parse(text)) in area ensures IsRead(text, variable, loops, statements, base) {
      ReadIsInArea(text, left, variable, loops, statements, file, bindings, segments);
    }
    var turn, text := OpenTurn(loops[i], moment, loops, statements, base, area);
    var turns := seq(|loops|, j => if j == i then turn else []);
    var env := TurnExists(left, variable, Val.Text(text), file, bindings);
    TurnGoes(left, variable, Val.Text(text), env, base, area);
    assert TurnsAgree(turns, loops, statements);
    assert InTurn(env, file, bindings, variable, turns[i]);
    assert !Lands(receiver, env, area);
  }

  /** The area covers every turn of every loop over the variable, in every run, if and only if at every moment they may
      run all those loops iterate is shown, is text, and is read. */
  lemma AreaCoversIff(
      left: Expr, variable: string, loops: seq<Loop>, statements: seq<Statement>, file: Path, bindings: Bindings,
      segments: map<string, set<string>>)
    requires IsBase(left, variable, file, bindings) && AreProper(bindings, file)
    requires AreSegments(segments, loops, Sequences(statements))
    ensures var area := AreaPaths(Div(left, Name(variable)), file, bindings, segments);
      EveryTurnLands(left, variable, loops, statements, file, bindings, area) <==>
        AllCovered(variable, loops, statements, Resolve(left, file, bindings).path)
  {
    hide IsTurnAt, Lands, AreaPaths, AreSegments, Regular, Resolve, Mentions, Agree, IsCovered;
    var area, base := AreaPaths(Div(left, Name(variable)), file, bindings, segments),
      Resolve(left, file, bindings).path;
    if AllCovered(variable, loops, statements, base) {
      forall turns, i, env: Env |
        && TurnsAgree(turns, loops, statements) && 0 <= i < |loops| && loops[i].variable == variable
        && InTurn(env, file, bindings, variable, turns[i])
        ensures Lands(Div(left, Name(variable)), env, area)
      {
        CoveredTurnLands(left, loops, statements, file, bindings, segments, i, turns[i], env);
      }
    } else {
      var i :| 0 <= i < |loops| && loops[i].variable == variable && !IsCovered(loops[i], loops, statements, base);
      OpenTurnStrays(left, loops, statements, file, bindings, segments, i);
    }
  }

  /** The paths a turn's value makes of the base are in the area. */
  ghost predicate StaysIn(value: Val, base: Path, area: set<Path>)
  {
    AsPath(Some(value)).Some? ==> base.Joined(AsPath(Some(value)).value) in area
  }

  /** In one run, every turn of every loop over the variable goes to a path of the area. */
  ghost predicate RunLands(
    receiver: Expr, loops: seq<Loop>, turns: seq<seq<Val>>, variable: string,
    file: Path, bindings: Bindings, area: set<Path>)
    requires |turns| == |loops|
  {
    forall i, env: Env ::
      0 <= i < |loops| && loops[i].variable == variable && InTurn(env, file, bindings, variable, turns[i])
      ==> Lands(receiver, env, area)
  }

  /** The values of the loops that are not covered stay in the area. */
  ghost predicate OpenTurnsStay(
    base: Path, loops: seq<Loop>, statements: seq<Statement>, turns: seq<seq<Val>>, variable: string, area: set<Path>)
    requires |turns| == |loops|
  {
    forall i, value ::
      && 0 <= i < |loops| && loops[i].variable == variable && !IsCovered(loops[i], loops, statements, base)
      && value in turns[i]
      ==> StaysIn(value, base, area)
  }

  /** One run is covered if and only if the values its other loops take stay in the area. */
  lemma RunIsCoveredIff(
      left: Expr, variable: string, loops: seq<Loop>, statements: seq<Statement>, file: Path, bindings: Bindings,
      segments: map<string, set<string>>, turns: seq<seq<Val>>)
    requires IsBase(left, variable, file, bindings) && AreProper(bindings, file)
    requires AreSegments(segments, loops, Sequences(statements)) && TurnsAgree(turns, loops, statements)
    ensures var receiver := Div(left, Name(variable));
      var base, area := Resolve(left, file, bindings).path, AreaPaths(receiver, file, bindings, segments);
      RunLands(receiver, loops, turns, variable, file, bindings, area)
      <==> OpenTurnsStay(base, loops, statements, turns, variable, area)
  {
    hide IsCovered, IsTurnAt, AreaPaths, AreSegments, Regular, Resolve, ResolvesNoParents, Mentions, Agree, Lands,
         StaysIn;
    var receiver := Div(left, Name(variable));
    var base, area := Resolve(left, file, bindings).path, AreaPaths(receiver, file, bindings, segments);
    if RunLands(receiver, loops, turns, variable, file, bindings, area) {
      forall i, value | 0 <= i < |loops| && loops[i].variable == variable && value in turns[i]
        ensures StaysIn(value, base, area)
      {
        var env := TurnExists(left, variable, value, file, bindings);
        TurnGoes(left, variable, value, env, base, area);
        assert InTurn(env, file, bindings, variable, turns[i]);
      }
    }
    if OpenTurnsStay(base, loops, statements, turns, variable, area) {
      forall i, env: Env | 0 <= i < |loops| && loops[i].variable == variable
        && InTurn(env, file, bindings, variable, turns[i])
        ensures Lands(receiver, env, area)
      {
        if IsCovered(loops[i], loops, statements, base) {
          CoveredTurnLands(left, loops, statements, file, bindings, segments, i, turns[i], env);
        } else {
          BaseCarries(left, variable, file, bindings);
          ResolveIsSound(left, bindings - {Variable(variable)}, env);
          TurnGoes(left, variable, env.names[variable], env, base, area);
        }
      }
    }
  }

  /** Where the base is a path, a turn lands as its value does. */
  lemma TurnGoes(left: Expr, variable: string, value: Val, env: Env, base: Path, area: set<Path>)
    requires variable in env.names && env.names[variable] == value && variable != "__file__"
    requires Fits(Known(base), Eval(left, env))
    ensures StaysIn(value, base, area) ==> Lands(Div(left, Name(variable)), env, area)
    ensures Eval(left, env) == Some(PathVal(base)) && !StaysIn(value, base, area) ==>
      !Lands(Div(left, Name(variable)), env, area)
  {
    hide Parse, Path.Joined;
    assert Eval(Name(variable), env) == Some(value);
  }

  /** The answer worse than none, some of the areas and not all, can be given if and only if one loop over the variable
      gives it a segment and another is not covered. */
  lemma AnswersInPartIff(
      left: Expr, variable: string, loops: seq<Loop>, statements: seq<Statement>, file: Path, bindings: Bindings,
      segments: map<string, set<string>>)
    requires IsBase(left, variable, file, bindings) && AreProper(bindings, file)
    requires AreSegments(segments, loops, Sequences(statements))
    ensures var area := AreaPaths(Div(left, Name(variable)), file, bindings, segments);
      area != {} && !EveryTurnLands(left, variable, loops, statements, file, bindings, area)
      <==>
      && (exists segment :: Takes(loops, Sequences(statements), variable, segment))
      && !AllCovered(variable, loops, statements, Resolve(left, file, bindings).path)
  {
    hide AllCovered, EveryTurnLands, Takes, Regular, ResolvesNoParents, Resolve, Mentions, Parse,
         Path.Joined;
    hide AreProper;
    AreaCoversIff(left, variable, loops, statements, file, bindings, segments);
    var base := Resolve(left, file, bindings).path;
    var area := AreaPaths(Div(left, Name(variable)), file, bindings, segments);
    if segment :| Takes(loops, Sequences(statements), variable, segment) {
      assert Holds(segments, variable, segment);
      assert base.Joined(Parse(segment)) in area;
    } else {
      forall path ensures path !in area {
        AreaPathsAreReached(Div(left, Name(variable)), file, bindings, loops, Sequences(statements), segments, path);
      }
    }
  }

  /** A walk of `root / area`, where the only segment known of `area` is "a". */
  lemma OneAreaKnown(file: Path, loops: seq<Loop>, sequences: map<string, seq<string>>,
      segments: map<string, set<string>>)
    requires file.Plain() && AreSegments(segments, loops, sequences)
    requires forall segment :: Takes(loops, sequences, "area", segment) <==> segment == "a"
    ensures AreaPaths(Div(Name("root"), Name("area")), file, map[Variable("root") := file], segments)
      == {Path(true, file.parts + ["a"])}
    ensures var env := Blank(file).(names := map["root" := PathVal(file), "area" := Val.Text("c")]);
      && InTurn(env, file, map[Variable("root") := file], "area", [Val.Text("c")])
      && Eval(Div(Name("root"), Name("area")), env) == Some(PathVal(Path(true, file.parts + ["c"])))
  {
    hide Parse, Takes, AreaPaths;
    var receiver, bindings := Div(Name("root"), Name("area")), map[Variable("root") := file];
    IsOnePart("a");
    IsOnePart("c");
    var area := AreaPaths(receiver, file, bindings, segments);
    forall path ensures path in area <==> path == Path(true, file.parts + ["a"]) {
      AreaPathsAreReached(receiver, file, bindings, loops, sequences, segments, path);
    }
    var env := Blank(file).(names := map["root" := PathVal(file), "area" := Val.Text("c")]);
    assert Eval(Name("root"), env) == Some(PathVal(file)) && Eval(Name("area"), env) == Some(Val.Text("c"));
  }

  lemma OneText(text: string)
    ensures Texts([Segment(text)]) == Some([text])
  {
    var one: seq<Element>, none: seq<string> := [Segment(text)], [];
    assert one[..0] == [] && one[|one| - 1] == Segment(text);
    assert Texts(one[..0]) == Some(none);
    assert none + [text] == [text];
  }

  /** In a run where one loop takes "c", the walk leaves the area "a". */
  ghost predicate StraysTo(file: Path, loops: seq<Loop>, statements: seq<Statement>, segments: map<string, set<string>>,
      turns: seq<seq<Val>>)
  {
    var receiver, bindings := Div(Name("root"), Name("area")), map[Variable("root") := file];
    var env := Blank(file).(names := map["root" := PathVal(file), "area" := Val.Text("c")]);
    && IsBase(Name("root"), "area", file, bindings) && TurnsAgree(turns, loops, statements)
    && (exists i :: 0 <= i < |turns| && InTurn(env, file, bindings, "area", turns[i]))
    && AreaPaths(receiver, file, bindings, segments) == {Path(true, file.parts + ["a"])}
    && !Lands(receiver, env, AreaPaths(receiver, file, bindings, segments))
  }

  lemma OneStrays(file: Path, loops: seq<Loop>, statements: seq<Statement>, segments: map<string, set<string>>,
      turns: seq<seq<Val>>, i: nat)
    requires file.Plain() && AreSegments(segments, loops, Sequences(statements))
    requires forall segment :: Takes(loops, Sequences(statements), "area", segment) <==> segment == "a"
    requires TurnsAgree(turns, loops, statements) && i < |turns| && turns[i] == [Val.Text("c")]
    ensures StraysTo(file, loops, statements, segments, turns)
  {
    hide Takes, TurnsAgree, AreSegments, Eval, AreaPaths, Sequences;
    OneAreaKnown(file, loops, Sequences(statements), segments);
    assert (file.parts + ["a"])[|file.parts|] != (file.parts + ["c"])[|file.parts|];
  }

  /** Two loops use one variable and only the first is read: the second's area is missed. */
  lemma SharedVariableMisses(file: Path, segments: map<string, set<string>>)
    requires file.Plain()
    requires AreSegments(segments, [Loop("area", Container([Segment("a")]), {0}), Loop("area", Opaque, {0})],
      Sequences([]))
    ensures StraysTo(file, [Loop("area", Container([Segment("a")]), {0}), Loop("area", Opaque, {0})], [], segments,
      [[], [Val.Text("c")]])
  {
    var loops := [Loop("area", Container([Segment("a")]), {0}), Loop("area", Opaque, {0})];
    OneText("a");
    assert Gives(loops[0], Sequences([]), "area", "a");
    assert IsTurnAt([Val.Text("c")], loops[1], [], 0);
    hide AreSegments, IsTurnAt;
    OneStrays(file, loops, [], segments, [[], [Val.Text("c")]], 1);
  }

  /** A module that assigns one name twice. */
  function Twice(first: Iterable, second: Iterable): seq<Statement>
  {
    [Statement("AREAS", first), Statement("AREAS", second)]
  }

  /** Of two assignments the last literal is read. */
  lemma TwiceIsRead(first: Iterable, second: Iterable, text: string)
    requires first.Container? && Texts(first.elements).Some? && LiteralSegments(first, map[]) != []
    requires text in LiteralSegments(if LiteralSegments(second, map[]) == [] then first else second, map[])
    requires |LiteralSegments(if LiteralSegments(second, map[]) == [] then first else second, map[])| == 1
    ensures Sequences(Twice(first, second)) == map["AREAS" := [text]]
  {
    hide Texts;
    var statements, one := Twice(first, second), [Statement("AREAS", first)];
    assert statements[..1] == one && one[..0] == [] && one[0] == Statement("AREAS", first);
    assert Sequences([]) == map[];
    assert Sequences(one) == map["AREAS" := LiteralSegments(first, map[])];
    var read := LiteralSegments(if LiteralSegments(second, map[]) == [] then first else second, map[]);
    assert read == [text];
  }

  /** A name that once held a literal is read as holding it still. */
  lemma EarlierSequenceStays(file: Path, segments: map<string, set<string>>)
    requires file.Plain()
    requires AreSegments(segments, [Loop("area", ByName("AREAS"), {2})],
      Sequences(Twice(Container([Segment("a")]), Opaque)))
    ensures StraysTo(file, [Loop("area", ByName("AREAS"), {2})], Twice(Container([Segment("a")]), Opaque), segments,
      [[Val.Text("c")]])
  {
    var loops, statements := [Loop("area", ByName("AREAS"), {2})], Twice(Container([Segment("a")]), Opaque);
    OneText("a");
    TwiceIsRead(Container([Segment("a")]), Opaque, "a");
    assert Gives(loops[0], Sequences(statements), "area", "a");
    assert statements[..2] == statements;
    assert IsTurnAt([Val.Text("c")], loops[0], statements, 2);
    hide AreSegments, IsTurnAt, Sequences, Twice;
    OneStrays(file, loops, statements, segments, [[Val.Text("c")]], 0);
  }

  /** A loop the module runs before it assigns the name anew is read as iterating what comes later. */
  lemma LaterSequenceIsRead(file: Path, segments: map<string, set<string>>)
    requires file.Plain()
    requires AreSegments(segments, [Loop("area", ByName("AREAS"), {1})],
      Sequences(Twice(Container([Segment("c")]), Container([Segment("a")]))))
    ensures StraysTo(file, [Loop("area", ByName("AREAS"), {1})],
      Twice(Container([Segment("c")]), Container([Segment("a")])), segments, [[Val.Text("c")]])
  {
    var loops, statements := [Loop("area", ByName("AREAS"), {1})],
      Twice(Container([Segment("c")]), Container([Segment("a")]));
    OneText("c");
    OneText("a");
    TwiceIsRead(Container([Segment("c")]), Container([Segment("a")]), "a");
    assert Gives(loops[0], Sequences(statements), "area", "a");
    assert Until(statements, 1) == [Statement("AREAS", Container([Segment("c")]))];
    assert Shown(loops[0].iterable, Until(statements, 1)) == Some([Segment("c")]);
    assert IsTurnAt([Val.Text("c")], loops[0], statements, 1);
    hide AreSegments, IsTurnAt, Sequences, Twice;
    OneStrays(file, loops, statements, segments, [[Val.Text("c")]], 0);
  }
}
