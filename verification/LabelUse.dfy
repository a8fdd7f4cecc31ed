/** strands_robots/episode_labels.py: choosing episodes by their labels, and measuring the judge against a human. */
module LabelUse {
  import opened Options
  import opened Numerals
  import opened EpisodeLabels
  import Order

  // Choosing episodes.

  datatype Bar = Bar(requireSuccess: bool, minQuality: string, excludeDisputed: bool)

  /** `QUALITY_GRADES.index(grade)`. */
  function Rank(grade: string): (rank: nat)
    ensures grade in QUALITY_GRADES ==> rank < |QUALITY_GRADES| && QUALITY_GRADES[rank] == grade
  {
    if grade == QUALITY_GRADES[0] then 0 else if grade == QUALITY_GRADES[1] then 1 else 2
  }

  function JudgeOf(document: Json, key: string): Json
  {
    var judge := Block(document, key, JUDGE);
    if judge.Some? then judge.value else Null
  }

  function VerdictOf(document: Json, key: string): Json
  {
    var verdict := Block(document, key, VERDICT);
    if verdict.Some? then verdict.value else Null
  }

  predicate Qualifies(document: Json, key: string, bar: Bar)
  {
    && Block(document, key, JUDGE).Some?
    && (bar.requireSuccess ==> Success(VerdictOf(document, key)))
    && Rank(bar.minQuality) <= Rank(Quality(JudgeOf(document, key)))
    && (bar.excludeDisputed ==> Get(JudgeOf(document, key), "disputes_verdict") != Bool(true))
  }

  function Quality(judge: Json): string
  {
    var quality := Get(judge, "quality");
    if quality.Str? then quality.text else ""
  }

  /** The indices whose records qualify. */
  ghost function Qualifying(document: Json, bar: Bar): set<nat>
  {
    set key | key in Episodes(document) && IsDigits(key) && Qualifies(document, key, bar) :: Value(key)
  }

  // A record, read off the document itself.

  /** The document keeps `record` under `key`. */
  ghost predicate HasRecord(document: Json, key: string, record: map<string, Json>)
  {
    && document.Obj? && "episodes" in document.fields && document.fields["episodes"].Obj?
    && key in document.fields["episodes"].fields && document.fields["episodes"].fields[key] == Obj(record)
  }

  /** The record has a block of this name, with these fields. */
  ghost predicate HasBlock(record: map<string, Json>, name: string, fields: map<string, Json>)
  {
    name in record && record[name] == Obj(fields)
  }

  ghost predicate IsTrue(fields: map<string, Json>, name: string)
  {
    name in fields && fields[name] == Bool(true)
  }

  /** The judge's grade stands in the list of grades where the bar does, or after it. */
  ghost predicate IsGraded(judge: map<string, Json>, minQuality: string)
  {
    exists i, j :: 0 <= i <= j < |QUALITY_GRADES| && QUALITY_GRADES[i] == minQuality && "quality" in judge
      && judge["quality"] == Str(QUALITY_GRADES[j])
  }

  /** A record the judge has annotated meets every criterion asked for. */
  ghost predicate Meets(record: map<string, Json>, bar: Bar)
  {
    && (bar.requireSuccess ==>
      exists verdict :: HasBlock(record, "deterministic", verdict) && IsTrue(verdict, "success"))
    && exists judge :: HasBlock(record, "judge", judge) && IsGraded(judge, bar.minQuality)
         && (bar.excludeDisputed ==> !IsTrue(judge, "disputes_verdict"))
  }

  /** What qualifies, told from the record. */
  lemma QualifiesIff(document: Json, key: string, bar: Bar)
    requires Acceptable(document) && bar.minQuality in QUALITY_GRADES
    ensures Qualifies(document, key, bar) <==> exists record :: HasRecord(document, key, record) && Meets(record, bar)
  {
    if key in Episodes(document) {
      assert Readable(key, Episodes(document)[key]);
      var record := Episodes(document)[key].fields;
      assert HasRecord(document, key, record);
      RecordQualifiesIff(document, key, record, bar);
      assert forall other :: HasRecord(document, key, other) ==> other == record;
    }
  }

  lemma RecordQualifiesIff(document: Json, key: string, record: map<string, Json>, bar: Bar)
    requires HasRecord(document, key, record) && Readable(key, Obj(record)) && bar.minQuality in QUALITY_GRADES
    ensures Qualifies(document, key, bar) <==> Meets(record, bar)
  {
    assert VERDICT == "deterministic" && JUDGE == "judge" && EPISODES == "episodes";
    assert Episodes(document)[key] == Obj(record);
    if JUDGE in record {
      var judge := record[JUDGE].fields;
      assert JudgeOf(document, key) == Obj(judge);
      assert forall other :: HasBlock(record, "judge", other) ==> other == judge;
      GradedIff(judge, bar.minQuality);
      assert HasBlock(record, "judge", judge);
    }
    if VERDICT in record {
      var verdict := record[VERDICT].fields;
      assert HasBlock(record, "deterministic", verdict);
      assert forall other :: HasBlock(record, "deterministic", other) ==> other == verdict;
      assert Success(VerdictOf(document, key)) <==> IsTrue(verdict, "success");
    }
  }

  lemma GradedIff(judge: map<string, Json>, minQuality: string)
    requires ReadableJudge(Obj(judge)) && minQuality in QUALITY_GRADES
    ensures IsGraded(judge, minQuality) <==> Rank(minQuality) <= Rank(Quality(Obj(judge)))
  {
  }

  ghost predicate Rising(s: seq<nat>)
  {
    forall i, j :: 0 <= i < j < |s| ==> s[i] < s[j]
  }

  function InsertNumber(n: nat, s: seq<nat>): seq<nat>
  {
    if |s| == 0 || s[|s| - 1] < n then s + [n] else InsertNumber(n, s[..|s| - 1]) + [s[|s| - 1]]
  }

  /** `sorted`. */
  function SortedNumbers(s: seq<nat>): seq<nat>
  {
    if |s| == 0 then [] else InsertNumber(s[|s| - 1], SortedNumbers(s[..|s| - 1]))
  }

  lemma {:induction false} InsertNumberRises(n: nat, s: seq<nat>)
    requires Rising(s) && n !in s
    ensures Rising(InsertNumber(n, s))
    ensures forall x :: x in InsertNumber(n, s) <==> x == n || x in s
  {
    if |s| > 0 {
      var init, last := s[..|s| - 1], s[|s| - 1];
      assert s == init + [last];
      if n <= last {
        InsertNumberRises(n, init);
        var inserted := InsertNumber(n, init);
        forall i | 0 <= i < |inserted| ensures inserted[i] < last {
          assert inserted[i] in inserted;
          assert inserted[i] == n || inserted[i] in init;
        }
      }
    }
  }

  lemma {:induction false} SortedNumbersRise(s: seq<nat>)
    requires Order.Distinct(s)
    ensures Rising(SortedNumbers(s))
    ensures forall x :: x in SortedNumbers(s) <==> x in s
  {
    if |s| > 0 {
      var init, last := s[..|s| - 1], s[|s| - 1];
      assert s == init + [last];
      assert last !in init;
      SortedNumbersRise(init);
      InsertNumberRises(last, SortedNumbers(init));
    }
  }

  /** The indices chosen, in rising order and each once: exactly those whose records meet every criterion asked for.
      Nothing when the grade is unknown or the sidecar cannot be read. */
  method FilterEpisodes(file: File, bar: Bar) returns (selected: Option<seq<nat>>)
    ensures selected.Some? <==> bar.minQuality in QUALITY_GRADES && ReadLabels(file).Some?
    ensures selected.Some? ==> Rising(selected.value)
    ensures selected.Some? ==> forall n :: n in selected.value <==> n in Qualifying(file.document, bar)
    ensures selected.Some? ==> forall n :: n in selected.value <==>
      exists record :: HasRecord(file.document, Spelling(n), record) && Meets(record, bar)
  {
    if bar.minQuality !in QUALITY_GRADES || ReadLabels(file).None? {
      return None;
    }
    var document := file.document;
    assert KeysAreCanonical(document);
    hide ReadLabels, Acceptable, Qualifies;
    var pending := Episodes(document).Keys;
    var chosen: seq<nat> := [];
    while pending != {}
      invariant pending <= Episodes(document).Keys
      invariant Order.Distinct(chosen)
      invariant forall n :: n in chosen <==> Taken(document, bar, pending, n)
    {
      var key :| key in pending;
      ghost var before := pending;
      pending := pending - {key};
      TakenStep(document, bar, before, key);
      if Qualifies(document, key, bar) {
        chosen := chosen + [Value(key)];
      }
    }
    SortedNumbersRise(chosen);
    selected := Some(SortedNumbers(chosen));
    forall n ensures n in chosen <==> n in Qualifying(document, bar) {
    }
    forall n: nat
      ensures n in Qualifying(document, bar) <==>
        exists record :: HasRecord(document, Spelling(n), record) && Meets(record, bar)
    {
      QualifyingIff(document, bar, n);
    }
  }

  lemma QualifyingIff(document: Json, bar: Bar, n: nat)
    requires Acceptable(document) && bar.minQuality in QUALITY_GRADES
    ensures n in Qualifying(document, bar) <==>
      exists record :: HasRecord(document, Spelling(n), record) && Meets(record, bar)
  {
    ValueOfSpelling(n);
    QualifiesIff(document, Spelling(n), bar);
    hide Qualifies, Meets, Value, Spelling;
    if n in Qualifying(document, bar) {
      var key :| key in Episodes(document) && IsDigits(key) && Qualifies(document, key, bar) && Value(key) == n;
      assert Readable(key, Episodes(document)[key]);
    }
    if record :| HasRecord(document, Spelling(n), record) && Meets(record, bar) {
      assert EPISODES == "episodes" && Spelling(n) in Episodes(document);
    }
  }

  ghost predicate KeysAreCanonical(document: Json)
  {
    forall key :: key in Episodes(document) ==> IsCanonical(key)
  }

  /** Some record already looked at qualifies and is about `n`. */
  ghost predicate Taken(document: Json, bar: Bar, pending: set<string>, n: nat)
    requires KeysAreCanonical(document)
  {
    exists key :: key in Episodes(document) && key !in pending && Qualifies(document, key, bar) && Value(key) == n
  }

  lemma TakenStep(document: Json, bar: Bar, pending: set<string>, key: string)
    requires KeysAreCanonical(document) && key in pending && pending <= Episodes(document).Keys
    ensures !Taken(document, bar, pending, Value(key))
    ensures forall n :: Taken(document, bar, pending - {key}, n) <==>
      Taken(document, bar, pending, n) || (n == Value(key) && Qualifies(document, key, bar))
  {
    hide Qualifies, Value, Spelling;
    forall other | other in Episodes(document) && Value(other) == Value(key) ensures other == key {
      assert Spelling(Value(other)) == other && Spelling(Value(key)) == key;
    }
  }

  /** Raising the grade bar or turning a flag on only drops episodes. */
  lemma FilterOnlyShrinks(document: Json, loose: Bar, strict: Bar)
    requires Rank(loose.minQuality) <= Rank(strict.minQuality)
    requires loose.requireSuccess ==> strict.requireSuccess
    requires loose.excludeDisputed ==> strict.excludeDisputed
    ensures Qualifying(document, strict) <= Qualifying(document, loose)
  {
    hide Block, IsDigits, Value;
  }

  /** What is annotated is what is filtered on and measured: right after annotating an episode, it qualifies exactly by
      its verdict, the grade given, and the judge's opinion. */
  lemma AnnotatedQualifiesIff(document: Json, a: Annotation, bar: Bar)
    requires Acceptable(document) && Annotated(document, a).Some?
    ensures var changed, key, verdict := Annotated(document, a).value,
      Spelling(a.episode), VerdictOf(document, Spelling(a.episode));
      && (Qualifies(changed, key, bar) <==>
            && (bar.requireSuccess ==> Success(verdict))
            && Rank(bar.minQuality) <= Rank(a.quality)
            && (bar.excludeDisputed && a.opinion.Some? ==> a.opinion.value == Success(verdict)))
      && Quality(JudgeOf(changed, key)) == a.quality && ModeOf(JudgeOf(changed, key)) == a.failureMode
      && forall other :: other != key ==> (Qualifies(changed, other, bar) <==> Qualifies(document, other, bar))
  {
    assert a.episode >= 0;
    hide Annotated, Acceptable, Spelling, Block, Success, Rank, UsableAnnotation;
    AnnotatingKeepsVerdicts(document, a);
    JudgeBlockIsRead(a, Success(VerdictOf(document, Spelling(a.episode))));
    hide JudgeBlock;
  }

  lemma JudgeBlockIsRead(a: Annotation, verdict: bool)
    ensures Quality(JudgeBlock(a, verdict)) == a.quality && ModeOf(JudgeBlock(a, verdict)) == a.failureMode
  {
    assert Get(JudgeBlock(a, verdict), "quality") == Str(a.quality);
    assert Get(JudgeBlock(a, verdict), "failure_mode") == if a.failureMode.Some? then Str(a.failureMode.value)
      else Null;
  }

  // The judge against a human.

  /** A human's label: a grade, and a failure mode that may be absent, `None` or a tag. */
  datatype Human = Human(quality: string, mode: Option<Option<string>>)

  predicate UsableHuman(index: int, human: Human)
  {
    && index >= 0 && human.quality in QUALITY_GRADES
    && (human.mode.Some? && human.mode.value.Some? ==> human.mode.value.value in FAILURE_MODES)
  }

  /** One compared episode. */
  datatype Row = Row(episode: nat, judgeQuality: string, judgeMode: Option<string>, human: Human)

  datatype Disagreement = OnQuality(episode: nat, judge: string, human: string)
    | OnMode(episode: nat, judgeTag: Option<string>, humanTag: Option<string>)

  datatype Tally = Tally(
    compared: nat, qualityHits: nat, modeCompared: nat, modeHits: nat,
    qualityColumn: seq<string>, modeColumn: seq<Option<string>>, disagreements: seq<Disagreement>)

  function ModeOf(judge: Json): Option<string>
  {
    var mode := Get(judge, "failure_mode");
    if mode.Str? then Some(mode.text) else None
  }

  /** The row of one holdout entry; nothing for an episode the judge has not annotated. */
  function RowFor(document: Json, index: int, human: Human): Option<Row>
  {
    if index < 0 || Block(document, Spelling(index), JUDGE).None? then None
    else
      var judge := JudgeOf(document, Spelling(index));
      Some(Row(index, Quality(judge), ModeOf(judge), human))
  }

  function WithRow(rows: seq<Row>, row: Option<Row>): seq<Row>
  {
    if row.Some? then rows + [row.value] else rows
  }

  /** The holdout's annotated episodes, in the holdout's order. */
  function Rows(document: Json, labels: seq<(int, Human)>): seq<Row>
  {
    if |labels| == 0 then []
    else
      var (index, human) := labels[|labels| - 1];
      WithRow(Rows(document, labels[..|labels| - 1]), RowFor(document, index, human))
  }

  /** The row compares one holdout entry: its episode's grade and tag by the judge, and the human's entry. */
  ghost predicate Compares(document: Json, entry: (int, Human), row: Row)
  {
    && row.episode == entry.0 && row.human == entry.1
    && exists record, judge :: HasRecord(document, Spelling(row.episode), record) && HasBlock(record, "judge", judge)
         && "quality" in judge && judge["quality"] == Str(row.judgeQuality)
         && if row.judgeMode.Some? then "failure_mode" in judge && judge["failure_mode"] == Str(row.judgeMode.value)
            else "failure_mode" in judge ==> judge["failure_mode"] == Null
  }

  lemma RowCompares(document: Json, entry: (int, Human), row: Row)
    requires Acceptable(document)
    ensures RowFor(document, entry.0, entry.1) == Some(row) <==> Compares(document, entry, row)
  {
    assert JUDGE == "judge" && EPISODES == "episodes";
    if entry.0 >= 0 && Spelling(entry.0) in Episodes(document) {
      var key := Spelling(entry.0);
      assert Readable(key, Episodes(document)[key]);
      var record := Episodes(document)[key].fields;
      assert HasRecord(document, key, record);
      assert forall other :: HasRecord(document, key, other) ==> other == record;
      if JUDGE in record {
        assert HasBlock(record, "judge", record[JUDGE].fields);
        assert forall other :: HasBlock(record, "judge", other) ==> other == record[JUDGE].fields;
      }
    }
  }

  /** The rows compare the entries of the holdout that have one, each once and in the holdout's order. */
  lemma {:induction false} RowsAreTheHoldouts(document: Json, labels: seq<(int, Human)>) returns (picked: seq<nat>)
    requires Acceptable(document)
    ensures Rising(picked) && |picked| == |Rows(document, labels)|
    ensures forall k :: 0 <= k < |picked| ==>
      picked[k] < |labels| && Compares(document, labels[picked[k]], Rows(document, labels)[k])
    ensures forall i, row :: 0 <= i < |labels| && Compares(document, labels[i], row) ==> i in picked
  {
    picked := [];
    if |labels| > 0 {
      var n := |labels| - 1;
      picked := RowsAreTheHoldouts(document, labels[..n]);
      forall row ensures RowFor(document, labels[n].0, labels[n].1) == Some(row) <==>
        Compares(document, labels[n], row) {
        RowCompares(document, labels[n], row);
      }
      hide RowFor, Compares;
      assert forall i :: 0 <= i < n ==> labels[..n][i] == labels[i];
      if RowFor(document, labels[n].0, labels[n].1).Some? {
        picked := picked + [n];
      }
    }
  }

  lemma OneMoreLabel(document: Json, labels: seq<(int, Human)>, i: nat)
    requires i < |labels|
    ensures var rows, row := Rows(document, labels[..i]), RowFor(document, labels[i].0, labels[i].1);
      && Rows(document, labels[..i + 1]) == WithRow(rows, row)
      && (row.Some? ==> TallyOf(WithRow(rows, row)) == Counted(TallyOf(rows), row.value))
  {
    hide RowFor, Counted;
    assert labels[..i + 1][..i] == labels[..i];
    var rows, row := Rows(document, labels[..i]), RowFor(document, labels[i].0, labels[i].1);
    assert row.Some? ==> WithRow(rows, row)[..|rows|] == rows;
  }

  predicate QualityHit(row: Row)
  {
    row.judgeQuality == row.human.quality
  }

  predicate ModeHit(row: Row)
  {
    row.human.mode.Some? && row.judgeMode == row.human.mode.value
  }

  function RowDisagreements(row: Row): seq<Disagreement>
  {
    (if QualityHit(row) then [] else [OnQuality(row.episode, row.judgeQuality, row.human.quality)])
    + (if row.human.mode.None? || ModeHit(row) then [] else [OnMode(row.episode, row.judgeMode, row.human.mode.value)])
  }

  function Counted(t: Tally, row: Row): Tally
  {
    Tally(
      t.compared + 1,
      t.qualityHits + (if QualityHit(row) then 1 else 0),
      t.modeCompared + (if row.human.mode.Some? then 1 else 0),
      t.modeHits + (if ModeHit(row) then 1 else 0),
      t.qualityColumn + [row.human.quality],
      t.modeColumn + (if row.human.mode.Some? then [row.human.mode.value] else []),
      t.disagreements + RowDisagreements(row))
  }

  function TallyOf(rows: seq<Row>): Tally
  {
    if |rows| == 0 then Tally(0, 0, 0, 0, [], [], []) else Counted(TallyOf(rows[..|rows| - 1]), rows[|rows| - 1])
  }

  ghost predicate Attained<T(!new)>(column: seq<T>, count: nat)
  {
    exists v :: v in column && multiset(column)[v] == count
  }

  /** How often the most frequent value of a column occurs. */
  function MostCommon<T(==, !new)>(column: seq<T>): (count: nat)
    ensures forall v :: multiset(column)[v] <= count
    ensures |column| > 0 ==> Attained(column, count)
  {
    if |column| == 0 then 0
    else
      var init, last := column[..|column| - 1], column[|column| - 1];
      assert column == init + [last];
      assert multiset(column) == multiset(init) + multiset{last};
      var count, own := MostCommon(init), multiset(column)[last];
      if own > count then
        assert last in column;
        own
      else
        assert forall v :: v in init && multiset(init)[v] == count ==> v in column && multiset(column)[v] == count;
        count
  }

  /** Every mismatch of either field is one disagreement row, and there are no others. */
  lemma {:induction false} DisagreementsAreTheMisses(rows: seq<Row>)
    ensures var t := TallyOf(rows);
      && t.qualityHits <= t.compared == |rows| == |t.qualityColumn| && t.modeHits <= t.modeCompared == |t.modeColumn|
      && |t.disagreements| == (t.compared - t.qualityHits) + (t.modeCompared - t.modeHits)
  {
    if |rows| > 0 {
      DisagreementsAreTheMisses(rows[..|rows| - 1]);
    }
  }

  // The tally, told from the rows.

  /** The rows whose episode the judge graded as the human did. */
  ghost function SameQuality(rows: seq<Row>): set<int>
  {
    set i | 0 <= i < |rows| && rows[i].judgeQuality == rows[i].human.quality
  }

  /** The rows whose human label says something about the failure mode, if only that there was none. */
  ghost function WithMode(rows: seq<Row>): set<int>
  {
    set i | 0 <= i < |rows| && rows[i].human.mode.Some?
  }

  /** The rows whose human says this of the failure mode. */
  ghost function SayingMode(rows: seq<Row>, mode: Option<string>): set<int>
  {
    set i | 0 <= i < |rows| && rows[i].human.mode == Some(mode)
  }

  /** The rows whose human and judge say the same of the failure mode. */
  ghost function SameMode(rows: seq<Row>): set<int>
  {
    set i | 0 <= i < |rows| && rows[i].human.mode == Some(rows[i].judgeMode)
  }

  ghost predicate IsDisagreement(rows: seq<Row>, d: Disagreement)
  {
    exists i :: 0 <= i < |rows| && rows[i].episode == d.episode &&
      match d
      case OnQuality(_, judge, human) =>
        judge == rows[i].judgeQuality && human == rows[i].human.quality && judge != human
      case OnMode(_, judge, human) =>
        judge == rows[i].judgeMode && rows[i].human.mode == Some(human) && judge != human
  }

  /** Every count of the tally is that of the rows it is about. */
  lemma {:induction false} TallyIsOfTheRows(rows: seq<Row>)
    ensures var t := TallyOf(rows);
      && t.compared == |rows| && t.qualityHits == |SameQuality(rows)|
      && t.modeCompared == |WithMode(rows)| && t.modeHits == |SameMode(rows)|
  {
    if |rows| > 0 {
      var init, last := rows[..|rows| - 1], rows[|rows| - 1];
      TallyIsOfTheRows(init);
      assert rows == init + [last];
      OneMoreQuality(init, last);
      OneMoreCompared(init, last);
      OneMoreMode(init, last);
      hide SameQuality, WithMode, SameMode, RowDisagreements, QualityHit, ModeHit;
    }
  }

  /** The baselines are taken over the human's values, and every disagreement is some row's. */
  lemma {:induction false} ColumnsAreOfTheRows(rows: seq<Row>)
    ensures var t := TallyOf(rows);
      && |t.qualityColumn| == |rows|
      && (forall i :: 0 <= i < |rows| ==> t.qualityColumn[i] == rows[i].human.quality)
      && (forall mode :: multiset(t.modeColumn)[mode] == |SayingMode(rows, mode)|)
      && forall d :: d in t.disagreements <==> IsDisagreement(rows, d)
  {
    if |rows| > 0 {
      var init, last := rows[..|rows| - 1], rows[|rows| - 1];
      ColumnsAreOfTheRows(init);
      assert rows == init + [last];
      forall mode
        ensures |SayingMode(rows, mode)| == |SayingMode(init, mode)| + if last.human.mode == Some(mode) then 1 else 0
      {
        OneMoreSaying(init, last, mode);
      }
      forall d ensures IsDisagreement(rows, d) <==> IsDisagreement(init, d) || d in RowDisagreements(last) {
        OneMoreDisagreement(init, last, d);
      }
      hide SayingMode, RowDisagreements, IsDisagreement, QualityHit, ModeHit;
      OneMoreInColumn(TallyOf(init), last);
    }
  }

  lemma OneMoreInColumn(t: Tally, row: Row)
    ensures forall mode :: multiset(Counted(t, row).modeColumn)[mode]
                             == multiset(t.modeColumn)[mode] + if row.human.mode == Some(mode) then 1 else 0
  {
    hide QualityHit, ModeHit, RowDisagreements;
  }

  lemma OneMoreQuality(rows: seq<Row>, row: Row)
    ensures |SameQuality(rows + [row])| == |SameQuality(rows)| + if QualityHit(row) then 1 else 0
  {
    assert SameQuality(rows + [row]) == SameQuality(rows) + if QualityHit(row) then {|rows|} else {};
  }

  lemma OneMoreCompared(rows: seq<Row>, row: Row)
    ensures |WithMode(rows + [row])| == |WithMode(rows)| + if row.human.mode.Some? then 1 else 0
  {
    assert WithMode(rows + [row]) == WithMode(rows) + if row.human.mode.Some? then {|rows|} else {};
  }

  lemma OneMoreMode(rows: seq<Row>, row: Row)
    ensures |SameMode(rows + [row])| == |SameMode(rows)| + if ModeHit(row) then 1 else 0
  {
    assert SameMode(rows + [row]) == SameMode(rows) + if ModeHit(row) then {|rows|} else {};
  }

  lemma OneMoreSaying(rows: seq<Row>, row: Row, mode: Option<string>)
    ensures |SayingMode(rows + [row], mode)| == |SayingMode(rows, mode)| + if row.human.mode == Some(mode) then 1 else 0
  {
    assert SayingMode(rows + [row], mode)
      == SayingMode(rows, mode) + if row.human.mode == Some(mode) then {|rows|} else {};
  }

  lemma OneMoreDisagreement(rows: seq<Row>, row: Row, d: Disagreement)
    ensures IsDisagreement(rows + [row], d) <==> IsDisagreement(rows, d) || d in RowDisagreements(row)
  {
    var more := rows + [row];
    assert more[|rows|] == row;
    assert forall i :: 0 <= i < |rows| ==> more[i] == rows[i];
  }

  /** The same holdout, had the judge given one answer to everything. */
  function Answering(rows: seq<Row>, grade: string, mode: Option<string>): seq<Row>
  {
    if |rows| == 0 then []
    else
      Answering(rows[..|rows| - 1], grade, mode) + [rows[|rows| - 1].(judgeQuality := grade, judgeMode := mode)]
  }

  lemma {:induction false} ConstantAnswer(rows: seq<Row>, grade: string, mode: Option<string>)
    ensures var t, constant := TallyOf(rows), TallyOf(Answering(rows, grade, mode));
      && constant.compared == t.compared && constant.modeCompared == t.modeCompared
      && constant.qualityHits == multiset(t.qualityColumn)[grade]
      && constant.modeHits == multiset(t.modeColumn)[mode]
  {
    if |rows| > 0 {
      var init, row, all := rows[..|rows| - 1], rows[|rows| - 1], Answering(rows, grade, mode);
      ConstantAnswer(init, grade, mode);
      assert all[..|all| - 1] == Answering(init, grade, mode);
    }
  }

  datatype Report = Report(
    compared: nat, qualityAgreement: real, qualityBaseline: real,
    modeAgreement: Option<real>, modeBaseline: Option<real>,
    disagreements: seq<Disagreement>)

  function Share(part: nat, whole: nat): Option<real>
  {
    if whole == 0 then None else Some(part as real / whole as real)
  }

  function ReportOf(t: Tally): Option<Report>
  {
    if t.compared == 0 then None
    else
      Some(Report(
        t.compared, t.qualityHits as real / t.compared as real,
        MostCommon(t.qualityColumn) as real / t.compared as real,
        Share(t.modeHits, t.modeCompared), Share(MostCommon(t.modeColumn), t.modeCompared), t.disagreements))
  }

  lemma SharesAreOrdered(part: nat, other: nat, whole: nat)
    requires whole > 0
    ensures part <= other <==> part as real / whole as real <= other as real / whole as real
  {
    if part as real / whole as real <= other as real / whole as real {
      assert part as real / whole as real * whole as real <= other as real / whole as real * whole as real;
    }
  }

  lemma ShareOfWhole(part: nat, whole: nat)
    requires whole > 0
    ensures part as real / whole as real * whole as real == part as real
  {
  }

  /** The report counts the rows and its shares are those of the rows that agree, the modes' over the rows that have
      one; there is none for no rows. */
  lemma ReportIsOfTheRows(rows: seq<Row>)
    ensures ReportOf(TallyOf(rows)).None? <==> |rows| == 0
    ensures |rows| > 0 ==> var report := ReportOf(TallyOf(rows)).value;
      && report.compared == |rows| && report.qualityAgreement * |rows| as real == |SameQuality(rows)| as real
      && (report.modeAgreement.None? <==> |WithMode(rows)| == 0)
      && (report.modeAgreement.Some? ==>
            report.modeAgreement.value * |WithMode(rows)| as real == |SameMode(rows)| as real)
      && forall d :: d in report.disagreements <==> IsDisagreement(rows, d)
  {
    TallyIsOfTheRows(rows);
    ColumnsAreOfTheRows(rows);
    ReportIsOfTheTally(TallyOf(rows));
    hide TallyOf, ReportOf, SameQuality, WithMode, SameMode, IsDisagreement, SayingMode;
  }

  lemma ReportIsOfTheTally(t: Tally)
    ensures ReportOf(t).None? <==> t.compared == 0
    ensures t.compared > 0 ==> var report := ReportOf(t).value;
      && report.compared == t.compared && report.qualityAgreement * t.compared as real == t.qualityHits as real
      && (report.modeAgreement.None? <==> report.modeBaseline.None?)
      && (report.modeAgreement.None? <==> t.modeCompared == 0)
      && (report.modeAgreement.Some? ==>
            report.modeAgreement.value * t.modeCompared as real == t.modeHits as real)
      && report.disagreements == t.disagreements
  {
    if t.compared > 0 {
      ShareOfWhole(t.qualityHits, t.compared);
    }
    if t.modeCompared > 0 {
      ShareOfWhole(t.modeHits, t.modeCompared);
    }
  }

  lemma ScoresOf(t: Tally, other: Tally)
    requires t.compared > 0 && other.compared == t.compared && other.modeCompared == t.modeCompared
    requires other.qualityHits <= MostCommon(t.qualityColumn) && other.modeHits <= MostCommon(t.modeColumn)
    ensures ScoresWithin(ReportOf(t).value, ReportOf(other))
    ensures other.qualityHits == MostCommon(t.qualityColumn) ==>
      ReportOf(other).value.qualityAgreement == ReportOf(t).value.qualityBaseline
    ensures other.modeHits == MostCommon(t.modeColumn) ==>
      ReportOf(other).value.modeAgreement == ReportOf(t).value.modeBaseline
  {
    SharesAreOrdered(other.qualityHits, MostCommon(t.qualityColumn), t.compared);
    if t.modeCompared > 0 {
      SharesAreOrdered(other.modeHits, MostCommon(t.modeColumn), t.modeCompared);
    }
  }

  lemma ConstantScores(rows: seq<Row>, grade: string, mode: Option<string>)
    requires |rows| > 0
    ensures var t, report := TallyOf(rows), ReportOf(TallyOf(Answering(rows, grade, mode)));
      && ReportOf(t).Some? && ScoresWithin(ReportOf(t).value, report)
      && (multiset(t.qualityColumn)[grade] == MostCommon(t.qualityColumn) ==>
            report.value.qualityAgreement == ReportOf(t).value.qualityBaseline)
      && (multiset(t.modeColumn)[mode] == MostCommon(t.modeColumn) ==>
            report.value.modeAgreement == ReportOf(t).value.modeBaseline)
  {
    ConstantAnswer(rows, grade, mode);
    DisagreementsAreTheMisses(rows);
    hide TallyOf, Answering, ReportOf, ScoresWithin;
    ScoresOf(TallyOf(rows), TallyOf(Answering(rows, grade, mode)));
    ReportIsOfTheTally(TallyOf(rows));
  }

  /** Each baseline is what the best judge with one answer for everything scores on the same holdout: none of them
      scores more, and some answer a human gave scores that. */
  lemma BaselineIsTheBestConstant(rows: seq<Row>)
    requires |rows| > 0
    ensures ReportOf(TallyOf(rows)).Some?
    ensures forall grade, mode :: ScoresWithin(ReportOf(TallyOf(rows)).value,
      ReportOf(TallyOf(Answering(rows, grade, mode))))
    ensures exists i :: 0 <= i < |rows| && IsBestGrade(rows, rows[i].human.quality)
    ensures ReportOf(TallyOf(rows)).value.modeBaseline.Some? ==>
      exists mode :: SayingMode(rows, mode) != {} && IsBestMode(rows, mode)
  {
    forall grade, mode
      ensures ScoresWithin(ReportOf(TallyOf(rows)).value, ReportOf(TallyOf(Answering(rows, grade, mode))))
    {
      ConstantScores(rows, grade, mode);
    }
    ConstantScores(rows, "", None);
    SomeGradeIsBest(rows);
    SomeModeIsBest(rows);
  }

  lemma SomeGradeIsBest(rows: seq<Row>)
    requires |rows| > 0 && ReportOf(TallyOf(rows)).Some?
    ensures exists i :: 0 <= i < |rows| && IsBestGrade(rows, rows[i].human.quality)
  {
    var t := TallyOf(rows);
    ColumnsAreOfTheRows(rows);
    hide TallyOf, ReportOf, IsBestGrade;
    assert Attained(t.qualityColumn, MostCommon(t.qualityColumn));
    var grade :| grade in t.qualityColumn && multiset(t.qualityColumn)[grade] == MostCommon(t.qualityColumn);
    BestGrade(rows, grade);
  }

  lemma SomeModeIsBest(rows: seq<Row>)
    requires |rows| > 0 && ReportOf(TallyOf(rows)).Some?
    ensures ReportOf(TallyOf(rows)).value.modeBaseline.Some? ==>
      exists mode :: SayingMode(rows, mode) != {} && IsBestMode(rows, mode)
  {
    var t := TallyOf(rows);
    DisagreementsAreTheMisses(rows);
    ColumnsAreOfTheRows(rows);
    ReportIsOfTheTally(t);
    hide TallyOf, ReportOf, IsBestMode, SayingMode;
    if |t.modeColumn| > 0 {
      assert Attained(t.modeColumn, MostCommon(t.modeColumn));
      var mode :| mode in t.modeColumn && multiset(t.modeColumn)[mode] == MostCommon(t.modeColumn);
      BestMode(rows, mode);
      assert |SayingMode(rows, mode)| > 0;
    }
  }

  /** Whoever answers this grade to everything scores the baseline. */
  ghost predicate IsBestGrade(rows: seq<Row>, grade: string)
    requires ReportOf(TallyOf(rows)).Some?
  {
    forall mode :: ReportOf(TallyOf(Answering(rows, grade, mode))).Some?
      && ReportOf(TallyOf(Answering(rows, grade, mode))).value.qualityAgreement
        == ReportOf(TallyOf(rows)).value.qualityBaseline
  }

  ghost predicate IsBestMode(rows: seq<Row>, mode: Option<string>)
    requires ReportOf(TallyOf(rows)).Some?
  {
    forall grade :: ReportOf(TallyOf(Answering(rows, grade, mode))).Some?
      && ReportOf(TallyOf(Answering(rows, grade, mode))).value.modeAgreement
        == ReportOf(TallyOf(rows)).value.modeBaseline
  }

  lemma BestGrade(rows: seq<Row>, grade: string)
    requires |rows| > 0 && ReportOf(TallyOf(rows)).Some?
    requires multiset(TallyOf(rows).qualityColumn)[grade] == MostCommon(TallyOf(rows).qualityColumn)
    ensures IsBestGrade(rows, grade)
  {
    forall mode
      ensures ReportOf(TallyOf(Answering(rows, grade, mode))).Some?
        && ReportOf(TallyOf(Answering(rows, grade, mode))).value.qualityAgreement
          == ReportOf(TallyOf(rows)).value.qualityBaseline
    {
      ConstantScores(rows, grade, mode);
    }
  }

  lemma BestMode(rows: seq<Row>, mode: Option<string>)
    requires |rows| > 0 && ReportOf(TallyOf(rows)).Some?
    requires multiset(TallyOf(rows).modeColumn)[mode] == MostCommon(TallyOf(rows).modeColumn)
    ensures IsBestMode(rows, mode)
  {
    forall grade
      ensures ReportOf(TallyOf(Answering(rows, grade, mode))).Some?
        && ReportOf(TallyOf(Answering(rows, grade, mode))).value.modeAgreement
          == ReportOf(TallyOf(rows)).value.modeBaseline
    {
      ConstantScores(rows, grade, mode);
    }
  }

  /** This report's agreements do not exceed that one's baselines. */
  ghost predicate ScoresWithin(report: Report, other: Option<Report>)
  {
    && other.Some? && other.value.qualityAgreement <= report.qualityBaseline
    && (other.value.modeAgreement.Some? <==> report.modeBaseline.Some?)
    && (other.value.modeAgreement.Some? ==> other.value.modeAgreement.value <= report.modeBaseline.value)
  }

  lemma NoLabels(document: Json, labels: seq<(int, Human)>)
    ensures AllUsable(labels[..0]) && TallyOf(Rows(document, labels[..0])) == Tally(0, 0, 0, 0, [], [], [])
  {
  }

  lemma NoRowNoChange(rows: seq<Row>, row: Option<Row>)
    ensures row.None? ==> WithRow(rows, row) == rows
  {
  }

  method Count(before: Tally, row: Row) returns (t: Tally)
    ensures t == Counted(before, row)
  {
    t := before.(compared := before.compared + 1, qualityColumn := before.qualityColumn + [row.human.quality]);
    if QualityHit(row) {
      t := t.(qualityHits := t.qualityHits + 1);
    } else {
      t := t.(disagreements := t.disagreements + [OnQuality(row.episode, row.judgeQuality, row.human.quality)]);
    }
    if row.human.mode.Some? {
      t := t.(modeCompared := t.modeCompared + 1, modeColumn := t.modeColumn + [row.human.mode.value]);
      if ModeHit(row) {
        t := t.(modeHits := t.modeHits + 1);
      } else {
        t := t.(disagreements := t.disagreements + [OnMode(row.episode, row.judgeMode, row.human.mode.value)]);
      }
    }
  }

  predicate AllUsable(labels: seq<(int, Human)>)
  {
    forall i :: 0 <= i < |labels| ==> UsableHuman(labels[i].0, labels[i].1)
  }

  lemma OneMoreUsable(labels: seq<(int, Human)>, i: nat)
    requires i < |labels| && AllUsable(labels[..i])
    ensures UsableHuman(labels[i].0, labels[i].1) ==> AllUsable(labels[..i + 1])
    ensures !UsableHuman(labels[i].0, labels[i].1) ==> !AllUsable(labels)
  {
    hide UsableHuman;
    assert labels[..i + 1] == labels[..i] + [labels[i]];
  }

  method TallyHoldout(document: Json, labels: seq<(int, Human)>) returns (tally: Option<Tally>)
    ensures tally == if AllUsable(labels) then Some(TallyOf(Rows(document, labels))) else None
  {
    hide UsableHuman, AllUsable, Counted, RowFor, Rows, TallyOf, WithRow;
    var t := Tally(0, 0, 0, 0, [], [], []);
    NoLabels(document, labels);
    for i := 0 to |labels|
      invariant AllUsable(labels[..i])
      invariant t == TallyOf(Rows(document, labels[..i]))
    {
      var (index, human) := labels[i];
      OneMoreUsable(labels, i);
      if !UsableHuman(index, human) {
        return None;
      }
      OneMoreLabel(document, labels, i);
      var row := RowFor(document, index, human);
      NoRowNoChange(Rows(document, labels[..i]), row);
      if row.Some? {
        t := Count(t, row.value);
      }
    }
    assert labels[..|labels|] == labels;
    tally := Some(t);
  }

  /** An index that is one, a grade of the list, and a failure mode that is absent, `None` or one of the list. */
  ghost predicate IsUsable(index: int, human: Human)
  {
    && 0 <= index && (exists i :: 0 <= i < |QUALITY_GRADES| && human.quality == QUALITY_GRADES[i])
    && match human.mode case Some(Some(tag)) => tag in FAILURE_MODES case _ => true
  }

  lemma UsableIff(labels: seq<(int, Human)>)
    ensures AllUsable(labels) <==> forall i :: 0 <= i < |labels| ==> IsUsable(labels[i].0, labels[i].1)
  {
    forall i | 0 <= i < |labels|
      ensures IsUsable(labels[i].0, labels[i].1) <==> UsableHuman(labels[i].0, labels[i].1)
    {
    }
  }

  lemma SomethingIsComparedIff(document: Json, labels: seq<(int, Human)>)
    requires Acceptable(document)
    ensures ReportOf(TallyOf(Rows(document, labels))).Some? <==>
      exists i, row :: 0 <= i < |labels| && Compares(document, labels[i], row)
  {
    var picked := RowsAreTheHoldouts(document, labels);
    TallyIsOfTheRows(Rows(document, labels));
    hide Rows, TallyOf, Compares;
    if |picked| > 0 {
      assert Compares(document, labels[picked[0]], Rows(document, labels)[0]);
    }
  }

  /** The report over the annotated part of the holdout; nothing for an empty or malformed holdout, an unreadable
      sidecar, or a holdout with no annotation. */
  method MeasureAgreement(file: File, labels: seq<(int, Human)>) returns (report: Option<Report>)
    ensures report ==
      if ReadLabels(file).Some? && AllUsable(labels) then ReportOf(TallyOf(Rows(file.document, labels))) else None
    ensures report.Some? <==>
      && file.Holds? && Acceptable(file.document)
      && (forall i :: 0 <= i < |labels| ==> IsUsable(labels[i].0, labels[i].1))
      && exists i, row :: 0 <= i < |labels| && Compares(file.document, labels[i], row)
  {
    UsableIff(labels);
    if ReadLabels(file).Some? {
      SomethingIsComparedIff(file.document, labels);
    }
    hide Acceptable, AllUsable, Rows, TallyOf, ReportOf, Compares, IsUsable;
    var read := ReadLabels(file);
    if read.None? {
      return None;
    }
    var tally := TallyHoldout(read.value, labels);
    report := if tally.None? then None else ReportOf(tally.value);
  }
}
