/** scripts/check_lockfile_parity.py: self-referencing extras expanded, and two requirement sets compared. */
module LockfileParity {
  import opened Options
  import opened Order
  import opened Digraph

  const PROJECT_NAME := "strands-robots"

  // Names, per PEP 503 section "Normalized Names".

  predicate IsSeparator(c: char)
  {
    c == '-' || c == '_' || c == '.'
  }

  function Lower(c: char): (lowered: char)
    ensures if 'A' <= c <= 'Z' then 'a' <= lowered <= 'z' && lowered - 'a' == c - 'A' else lowered == c
  {
    if 'A' <= c <= 'Z' then (c as int + 32) as char else c
  }

  /** Every run of separators becomes one hyphen; letters are lowered. */
  function CanonicalName(name: string): string
  {
    if |name| == 0 then ""
    else if !IsSeparator(name[0]) then [Lower(name[0])] + CanonicalName(name[1..])
    else if |name| > 1 && IsSeparator(name[1]) then CanonicalName(name[1..])
    else "-" + CanonicalName(name[1..])
  }

  /** A name in normal form: lower case, hyphens only, no two in a row. */
  predicate IsCanonical(name: string)
  {
    forall i :: 0 <= i < |name| ==>
      && !('A' <= name[i] <= 'Z') && name[i] != '_' && name[i] != '.'
      && (name[i] == '-' && i + 1 < |name| ==> name[i + 1] != '-')
  }

  lemma {:induction false} CanonicalIsCanonical(name: string)
    ensures IsCanonical(CanonicalName(name))
    ensures |name| > 0 ==> |CanonicalName(name)| > 0
    ensures |name| > 0 ==> (CanonicalName(name)[0] == '-' <==> IsSeparator(name[0]))
  {
    if |name| > 0 {
      CanonicalIsCanonical(name[1..]);
    }
  }

  /** The normal form is a fixed point, and only a name in normal form is one. */
  lemma {:induction false} CanonicalIsFixed(name: string)
    ensures CanonicalName(name) == name <==> IsCanonical(name)
  {
    if IsCanonical(name) {
      FixedIfCanonical(name);
    }
    CanonicalIsCanonical(name);
  }

  lemma {:induction false} FixedIfCanonical(name: string)
    requires IsCanonical(name)
    ensures CanonicalName(name) == name
  {
    if |name| > 0 {
      assert forall i :: 0 <= i < |name| - 1 ==> name[1..][i] == name[i + 1];
      FixedIfCanonical(name[1..]);
      assert name == [name[0]] + name[1..];
    }
  }

  predicate IsRun(run: string)
  {
    |run| > 0 && forall i :: 0 <= i < |run| ==> IsSeparator(run[i])
  }

  lemma CanonicalOfLetter(c: char, rest: string)
    requires !IsSeparator(c)
    ensures CanonicalName([c] + rest) == [Lower(c)] + CanonicalName(rest)
  {
    assert ([c] + rest)[1..] == rest;
  }

  /** A separator in front of one more is as good as not there. */
  lemma CanonicalOfPair(c: char, d: char, rest: string)
    requires IsSeparator(c) && IsSeparator(d)
    ensures CanonicalName([c, d] + rest) == CanonicalName([d] + rest)
  {
    assert ([c, d] + rest)[1..] == [d] + rest;
  }

  lemma CanonicalOfSeparator(c: char, rest: string)
    requires IsSeparator(c)
    ensures CanonicalName([c] + rest) == CanonicalName("-" + rest)
  {
    assert ([c] + rest)[1..] == rest && ("-" + rest)[1..] == rest;
  }

  lemma {:induction false} RunIsOneHyphen(run: string, rest: string)
    requires IsRun(run)
    ensures CanonicalName(run + rest) == CanonicalName("-" + rest)
  {
    if |run| == 1 {
      CanonicalOfSeparator(run[0], rest);
      assert run == [run[0]];
    } else {
      CanonicalOfPair(run[0], run[1], run[2..] + rest);
      assert run + rest == [run[0], run[1]] + (run[2..] + rest);
      assert run[1..] + rest == [run[1]] + (run[2..] + rest);
      RunIsOneHyphen(run[1..], rest);
    }
  }

  /** Every run of separators is as good as any other, wherever it stands. */
  lemma {:induction false} RunsAreAlike(before: string, run: string, run': string, after: string)
    requires IsRun(run) && IsRun(run')
    ensures CanonicalName(before + run + after) == CanonicalName(before + run' + after)
  {
    if |before| == 0 {
      RunIsOneHyphen(run, after);
      RunIsOneHyphen(run', after);
      assert before + run + after == run + after && before + run' + after == run' + after;
    } else {
      var c, rest := before[0], before[1..];
      RunsAreAlike(rest, run, run', after);
      var s, s' := rest + run + after, rest + run' + after;
      assert before + run + after == [c] + s && before + run' + after == [c] + s';
      if !IsSeparator(c) {
        CanonicalOfLetter(c, s);
        CanonicalOfLetter(c, s');
      } else {
        HeadsAlike(rest, run, run', after);
        CanonicalOfSeparator(c, s);
        assert ([c] + s)[1..] == s && ([c] + s')[1..] == s';
      }
    }
  }

  /** Whether the text after a separator starts with one does not depend on which run stands in it. */
  lemma HeadsAlike(rest: string, run: string, run': string, after: string)
    requires IsRun(run) && IsRun(run')
    ensures |rest + run + after| > 0 && |rest + run' + after| > 0
    ensures IsSeparator((rest + run + after)[0]) <==> IsSeparator((rest + run' + after)[0])
  {
  }

  function LowerAll(s: string): string
  {
    if |s| == 0 then "" else [Lower(s[0])] + LowerAll(s[1..])
  }

  /** Case makes no difference. */
  lemma {:induction false} CaseIsIgnored(name: string)
    ensures CanonicalName(LowerAll(name)) == CanonicalName(name)
    ensures |LowerAll(name)| == |name| && (|name| > 0 ==> (IsSeparator(LowerAll(name)[0]) <==> IsSeparator(name[0])))
  {
    if |name| > 0 {
      CaseIsIgnored(name[1..]);
      assert LowerAll(name)[1..] == LowerAll(name[1..]);
      if |name| > 1 {
        assert LowerAll(name)[1] == LowerAll(name[1..])[0];
      }
    }
  }

  // Self-referencing extras.

  datatype Requirement = Requirement(name: string, extras: set<string>, specifier: string)

  /** The manifest's optional-dependency groups, by extra. */
  type Groups = map<string, seq<Requirement>>

  predicate IsSelf(r: Requirement)
  {
    CanonicalName(r.name) == PROJECT_NAME
  }

  function Direct(groups: Groups, extra: string): seq<Requirement>
  {
    if extra in groups then groups[extra] else []
  }

  /** Every extra the manifest defines or mentions. */
  function Universe(groups: Groups): set<string>
  {
    groups.Keys + set extra, i, inner | extra in groups && 0 <= i < |groups[extra]|
      && inner in groups[extra][i].extras :: inner
  }

  /** A requirement one extra states by naming this project. */
  ghost predicate NamesProject(groups: Groups, extra: string, r: Requirement)
  {
    extra in groups && r in groups[extra] && CanonicalName(r.name) == "strands-robots"
  }

  /** The extras one extra pulls in by naming this project. */
  function Pulled(groups: Groups, extra: string): (extras: set<string>)
    ensures forall x :: x in extras <==> exists r :: NamesProject(groups, extra, r) && x in r.extras
  {
    set r, inner | r in Direct(groups, extra) && IsSelf(r) && inner in r.extras :: inner
  }

  /** The self-reference graph of the extras. */
  function Extras(groups: Groups): Graph
  {
    Graph(map extra | extra in groups :: Pulled(groups, extra), Universe(groups))
  }

  /** The inner `expand`: requirements of an extra, following self-references not yet entered on this path. */
  function Expand(groups: Groups, extra: string, entered: set<string>): seq<Requirement>
    decreases |Universe(groups) - entered|, 2, 0
  {
    ExpandSpecs(groups, Direct(groups, extra), entered)
  }

  function ExpandSpecs(groups: Groups, specs: seq<Requirement>, entered: set<string>): seq<Requirement>
    requires forall i :: 0 <= i < |specs| ==> specs[i].extras <= Universe(groups)
    decreases |Universe(groups) - entered|, 1, |specs|
  {
    if |specs| == 0 then []
    else
      assert forall x :: x in Sorted(specs[0].extras) ==> x in Elements(Sorted(specs[0].extras));
      var first := if IsSelf(specs[0]) then ExpandExtras(groups, Sorted(specs[0].extras), entered) else [specs[0]];
      first + ExpandSpecs(groups, specs[1..], entered)
  }

  function ExpandExtras(groups: Groups, extras: seq<string>, entered: set<string>): seq<Requirement>
    requires forall x :: x in extras ==> x in Universe(groups)
    decreases |Universe(groups) - entered|, 0, |extras|
  {
    if |extras| == 0 then []
    else
      var rest := ExpandExtras(groups, extras[1..], entered);
      if extras[0] in entered then rest
      else
        EnteringShrinks(Universe(groups), entered, extras[0]);
        Expand(groups, extras[0], entered + {extras[0]}) + rest
  }

  lemma EnteringShrinks(all: set<string>, entered: set<string>, x: string)
    requires x in all && x !in entered
    ensures |all - (entered + {x})| < |all - entered|
  {
    assert all - entered == (all - (entered + {x})) + {x};
  }

  lemma {:induction false} ExtrasMember(groups: Groups, extras: seq<string>, entered: set<string>, r: Requirement)
    requires forall x :: x in extras ==> x in Universe(groups)
    ensures r in ExpandExtras(groups, extras, entered)
      <==> exists x :: x in extras && x !in entered && r in Expand(groups, x, entered + {x})
  {
    if |extras| > 0 {
      ExtrasMember(groups, extras[1..], entered, r);
      assert forall x :: x in extras <==> x == extras[0] || x in extras[1..];
    }
  }

  /** `spec` contributes `r` to an expansion: it is `r`, or it pulls in an extra not yet entered that expands to `r`. */
  ghost predicate Contributes(groups: Groups, spec: Requirement, entered: set<string>, r: Requirement)
  {
    if IsSelf(spec) then exists x :: x in spec.extras && x !in entered && r in Expand(groups, x, entered + {x})
      else r == spec
  }

  lemma {:induction false} SpecsMember(groups: Groups, specs: seq<Requirement>, entered: set<string>, r: Requirement)
    requires forall i :: 0 <= i < |specs| ==> specs[i].extras <= Universe(groups)
    ensures r in ExpandSpecs(groups, specs, entered) <==>
      exists i :: 0 <= i < |specs| && Contributes(groups, specs[i], entered, r)
  {
    if |specs| > 0 {
      SpecsMember(groups, specs[1..], entered, r);
      var sorted := Sorted(specs[0].extras);
      assert forall x :: x in sorted <==> x in Elements(sorted);
      if IsSelf(specs[0]) {
        ExtrasMember(groups, sorted, entered, r);
      }
      hide Expand, Sorted, IsSelf;
      assert r in ExpandSpecs(groups, specs, entered)
        <==> Contributes(groups, specs[0], entered, r) || r in ExpandSpecs(groups, specs[1..], entered);
      ShiftContributors(groups, specs, entered, r);
    }
  }

  lemma ShiftContributors(groups: Groups, specs: seq<Requirement>, entered: set<string>, r: Requirement)
    requires |specs| > 0
    ensures (exists i :: 0 <= i < |specs| && Contributes(groups, specs[i], entered, r)) <==>
      Contributes(groups, specs[0], entered, r) || exists i ::
        0 <= i < |specs[1..]| && Contributes(groups, specs[1..][i], entered, r)
  {
    hide Contributes;
    if i :| 0 <= i < |specs| && Contributes(groups, specs[i], entered, r) {
      if i > 0 {
        assert specs[1..][i - 1] == specs[i];
      }
    }
    if i :| 0 <= i < |specs[1..]| && Contributes(groups, specs[1..][i], entered, r) {
      assert specs[i + 1] == specs[1..][i];
    }
  }

  /** A requirement an extra states itself, of another project. */
  ghost predicate States(groups: Groups, extra: string, r: Requirement)
  {
    extra in groups && r in groups[extra] && CanonicalName(r.name) != "strands-robots"
  }

  /** One unfolding of `expand`. */
  lemma ExpandMember(groups: Groups, extra: string, entered: set<string>, r: Requirement)
    ensures r in Expand(groups, extra, entered) <==>
      || States(groups, extra, r)
      || exists x :: x in Pulled(groups, extra) && x !in entered && r in Expand(groups, x, entered + {x})
  {
    var specs := Direct(groups, extra);
    SpecsMember(groups, specs, entered, r);
    assert r in Expand(groups, extra, entered) <==> r in ExpandSpecs(groups, specs, entered);
    hide Expand, IsSelf;
    if i :| 0 <= i < |specs| && Contributes(groups, specs[i], entered, r) {
      if IsSelf(specs[i]) {
        var x :| x in specs[i].extras && x !in entered && r in Expand(groups, x, entered + {x});
        assert x in Pulled(groups, extra);
      }
    }
    if x :| x in Pulled(groups, extra) && x !in entered && r in Expand(groups, x, entered + {x}) {
      var i :| 0 <= i < |specs| && IsSelf(specs[i]) && x in specs[i].extras;
      assert Contributes(groups, specs[i], entered, r);
    }
    if States(groups, extra, r) {
      var i :| 0 <= i < |specs| && specs[i] == r;
      assert Contributes(groups, specs[i], entered, r);
    }
  }

  lemma PulledIsEdge(groups: Groups, extra: string, x: string)
    ensures x in Pulled(groups, extra) <==> Extras(groups).Edge(extra, x)
  {
    if x in Pulled(groups, extra) {
      var i :| 0 <= i < |Direct(groups, extra)| && x in Direct(groups, extra)[i].extras;
      assert x in groups[extra][i].extras;
    }
  }

  /** Nothing is expanded that is not reached. */
  lemma {:induction false} ExpandedIsReached(groups: Groups, extra: string, entered: set<string>, r: Requirement)
      returns (source: string)
    requires extra in Universe(groups) && r in Expand(groups, extra, entered)
    ensures Extras(groups).Reach(extra, source) && States(groups, source, r)
    decreases |Universe(groups) - entered|
  {
    ExpandMember(groups, extra, entered, r);
    var g := Extras(groups);
    if States(groups, extra, r) {
      source := extra;
      g.ReachSelf(extra);
    } else {
      var x :| x in Pulled(groups, extra) && x !in entered && r in Expand(groups, x, entered + {x});
      PulledIsEdge(groups, extra, x);
      EnteringShrinks(Universe(groups), entered, x);
      source := ExpandedIsReached(groups, x, entered + {x}, r);
      g.ReachEdge(extra, x);
      g.ReachTrans(extra, x, source);
    }
  }

  /** Along a walk that repeats nothing and avoids what is entered, everything is expanded. */
  lemma {:induction false} WalkIsExpanded(groups: Groups, p: seq<string>, entered: set<string>, r: Requirement)
    requires Extras(groups).Walk(p) && Distinct(p)
    requires forall i :: 0 < i < |p| ==> p[i] !in entered
    requires States(groups, p[|p| - 1], r)
    ensures r in Expand(groups, p[0], entered)
    decreases |p|
  {
    ExpandMember(groups, p[0], entered, r);
    if |p| > 1 {
      TailWalk(Extras(groups), p);
      PulledIsEdge(groups, p[0], p[1]);
      hide Expand, Extras, Pulled, States, Graph.Walk;
      WalkIsExpanded(groups, p[1..], entered + {p[1]}, r);
    }
  }

  lemma TailWalk(g: Graph, p: seq<string>)
    requires g.Walk(p) && |p| > 1
    ensures g.Walk(p[1..]) && g.Edge(p[0], p[1])
  {
    assert g.Edge(p[0], p[0 + 1]);
    forall i | 0 <= i < |p| - 2
      ensures g.Edge(p[1..][i], p[1..][i + 1])
    {
      assert g.Edge(p[i + 1], p[i + 1 + 1]);
    }
  }

  /** What `expand` collects for an extra is what the extras reachable from it state: the visited set kept per path
      loses nothing against the transitive closure. */
  lemma ExpandIsClosure(groups: Groups, extra: string, r: Requirement)
    ensures r in Expand(groups, extra, {extra})
      <==> exists source :: Extras(groups).Reach(extra, source) && States(groups, source, r)
  {
    var g := Extras(groups);
    if r in Expand(groups, extra, {extra}) {
      if extra in Universe(groups) {
        var source := ExpandedIsReached(groups, extra, {extra}, r);
      }
    }
    if source :| g.Reach(extra, source) && States(groups, source, r) {
      var p :| g.Joins(p, extra, source);
      var q := g.SimpleWalk(p);
      WalkIsExpanded(groups, q, {extra}, r);
    }
  }

  // Rows, and their comparison.

  /** What identifies a requirement independently of its version range. */
  datatype Key = Key(extra: Option<string>, name: string, extras: seq<string>)

  datatype Row = Row(key: Key, specifier: string)

  /** The row of a requirement under an extra; `normalise` stands for the specifier library's stable rendering. */
  function RowOf(extra: Option<string>, r: Requirement, normalise: string -> string): Row
  {
    Row(Key(extra, CanonicalName(r.name), Sorted(r.extras)), normalise(r.specifier))
  }

  /** The row says of a requirement under which extra it stands, its name in normal form, the extras it asks for, each
      once and in order, and its version range. */
  ghost predicate Tells(row: Row, extra: Option<string>, r: Requirement, normalise: string -> string)
  {
    && row.key.extra == extra && row.key.name == CanonicalName(r.name) && row.specifier == normalise(r.specifier)
    && Ascending(row.key.extras) && Distinct(row.key.extras) && forall x :: x in row.key.extras <==> x in r.extras
  }

  lemma RowTells(row: Row, extra: Option<string>, r: Requirement, normalise: string -> string)
    ensures Tells(row, extra, r, normalise) <==> row == RowOf(extra, r, normalise)
  {
    var sorted := Sorted(r.extras);
    assert forall x :: x in sorted <==> x in Elements(sorted);
    if Tells(row, extra, r, normalise) {
      DistinctIsSet(row.key.extras);
      DistinctIsSet(sorted);
      assert Elements(row.key.extras) == Elements(sorted);
      AscendingIsUnique(row.key.extras, sorted);
    }
  }

  ghost predicate Declares(groups: Groups, extra: string, r: Requirement)
  {
    exists source :: Extras(groups).Reach(extra, source) && States(groups, source, r)
  }

  ghost predicate IsDeclared(dependencies: seq<Requirement>, groups: Groups, normalise: string -> string, row: Row)
  {
    || (exists r :: r in dependencies && Tells(row, None, r, normalise))
    || IsConditional(groups, groups.Keys, normalise, row)
  }

  ghost predicate IsConditional(groups: Groups, extras: set<string>, normalise: string -> string, row: Row)
  {
    exists extra, r :: extra in extras && Declares(groups, extra, r) && Tells(row, Some(extra), r, normalise)
  }

  /** Every requirement the manifest declares, self-references expanded away. */
  method DeclaredRows(dependencies: seq<Requirement>, groups: Groups,
      normalise: string -> string) returns (rows: set<Row>)
    ensures forall row :: row in rows <==> IsDeclared(dependencies, groups, normalise, row)
  {
    forall row, extra, r ensures Tells(row, extra, r, normalise) <==> row == RowOf(extra, r, normalise) {
      RowTells(row, extra, r, normalise);
    }
    hide RowOf, Tells, Expand, Declares;
    rows := {};
    for i := 0 to |dependencies|
      invariant forall row :: row in rows <==> exists r :: r in dependencies[..i] && row == RowOf(None, r, normalise)
    {
      assert dependencies[..i + 1] == dependencies[..i] + [dependencies[i]];
      rows := rows + {RowOf(None, dependencies[i], normalise)};
    }
    assert dependencies[..|dependencies|] == dependencies;
    ghost var unconditional := rows;
    var left := groups.Keys;
    while left != {}
      invariant left <= groups.Keys
      invariant forall row :: row in rows <==>
        row in unconditional || IsConditional(groups, groups.Keys - left, normalise, row)
      decreases |left|
    {
      var extra :| extra in left;
      var expanded := Expand(groups, extra, {extra});
      forall r
        ensures r in expanded <==> Declares(groups, extra, r)
      {
        ExpandDeclares(groups, extra, r);
      }
      ghost var before := rows;
      for i := 0 to |expanded|
        invariant forall row :: row in rows <==>
          row in before || exists r :: r in expanded[..i] && row == RowOf(Some(extra), r, normalise)
      {
        assert expanded[..i + 1] == expanded[..i] + [expanded[i]];
        rows := rows + {RowOf(Some(extra), expanded[i], normalise)};
      }
      assert expanded[..|expanded|] == expanded;
      left := left - {extra};
    }
  }

  lemma ExpandDeclares(groups: Groups, extra: string, r: Requirement)
    ensures r in Expand(groups, extra, {extra}) <==> Declares(groups, extra, r)
  {
    ExpandIsClosure(groups, extra, r);
  }

  datatype Kind = MissingFromLock | AbsentFromManifest | SpecifierDrift

  datatype Finding = Finding(kind: Kind, key: Key, declared: set<string>, recorded: set<string>)

  /** The version ranges one side gives a key. */
  function Specifiers(rows: set<Row>, key: Key): set<string>
  {
    set row | row in rows && row.key == key :: row.specifier
  }

  function KeysOf(rows: set<Row>): set<Key>
  {
    set row | row in rows :: row.key
  }

  /** The finding about one key: both sides whole, and which side is empty. */
  ghost predicate IsFinding(declared: set<Row>, recorded: set<Row>, f: Finding)
  {
    && f.declared == Specifiers(declared, f.key) && f.recorded == Specifiers(recorded, f.key)
      && f.declared != f.recorded
    && (f.kind == MissingFromLock <==> f.recorded == {})
    && (f.kind == AbsentFromManifest <==> f.declared == {})
  }

  /** `compare`: one finding for every key the two sides disagree about, and no other. */
  method Compare(declared: set<Row>, recorded: set<Row>) returns (findings: seq<Finding>)
    ensures forall f :: f in findings <==> IsFinding(declared, recorded, f)
    ensures forall i, j :: 0 <= i < j < |findings| ==> findings[i].key != findings[j].key
  {
    findings := [];
    var left := KeysOf(declared) + KeysOf(recorded);
    while left != {}
      invariant left <= KeysOf(declared) + KeysOf(recorded)
      invariant forall f :: f in findings <==> IsFinding(declared, recorded, f) && f.key !in left
      invariant forall i, j :: 0 <= i < j < |findings| ==> findings[i].key != findings[j].key
      decreases |left|
    {
      var key :| key in left;
      var d, e := Specifiers(declared, key), Specifiers(recorded, key);
      if d != e {
        var kind := if e == {} then MissingFromLock else if d == {} then AbsentFromManifest else SpecifierDrift;
        findings := findings + [Finding(kind, key, d, e)];
      }
      left := left - {key};
    }
  }

  /** The grouped findings are lossless: each row on one side only can be read back out of them, and nothing else. */
  lemma FindingsAreTheDifference(declared: set<Row>, recorded: set<Row>, findings: seq<Finding>, row: Row)
    requires forall f :: f in findings <==> IsFinding(declared, recorded, f)
    ensures row in declared - recorded
      <==> exists f :: f in findings && f.key == row.key && row.specifier in f.declared - f.recorded
    ensures row in recorded - declared
      <==> exists f :: f in findings && f.key == row.key && row.specifier in f.recorded - f.declared
  {
    var d, e := Specifiers(declared, row.key), Specifiers(recorded, row.key);
    var kind := if e == {} then MissingFromLock else if d == {} then AbsentFromManifest else SpecifierDrift;
    assert row == Row(row.key, row.specifier);
    assert row.specifier in d <==> row in declared;
    assert row.specifier in e <==> row in recorded;
    if d != e {
      assert IsFinding(declared, recorded, Finding(kind, row.key, d, e));
    }
  }

  /** No finding means the two sides hold the same rows. */
  lemma NoFindingsMeansParity(declared: set<Row>, recorded: set<Row>, findings: seq<Finding>)
    requires forall f :: f in findings <==> IsFinding(declared, recorded, f)
    ensures findings == [] <==> declared == recorded
  {
    forall row
      ensures findings == [] ==> (row in declared <==> row in recorded)
    {
      FindingsAreTheDifference(declared, recorded, findings, row);
    }
    assert forall f :: f in findings ==> f.declared != f.recorded;
    assert declared == recorded && |findings| > 0 ==> IsFinding(declared, recorded, findings[0]);
  }
}
