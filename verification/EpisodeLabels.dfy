/** strands_robots/episode_labels.py: the label sidecar, its reader and its two writers. */
module EpisodeLabels {
  import opened Options
  import opened Numerals

  datatype Json =
    | Null
    | Bool(flag: bool)
    | Num(number: real)
    | Str(text: string)
    | Arr(items: seq<Json>)
    | Obj(fields: map<string, Json>)

  const QUALITY_GRADES: seq<string> := ["low", "medium", "high"]

  const FAILURE_MODES: set<string> :=
    {"jerky_motion", "near_miss", "camera_occlusion", "wrong_but_lucky", "drift", "collision", "incomplete", "other"}

  const VERDICT := "deterministic"
  const JUDGE := "judge"
  const EPISODES := "episodes"
  const CARRIED: set<string> := {"steps", "cumulative_reward", "seed"}

  function FieldsOf(json: Json): map<string, Json>
  {
    if json.Obj? then json.fields else map[]
  }

  /** `json.get(name)`. */
  function Get(json: Json, name: string): Json
  {
    if name in FieldsOf(json) then FieldsOf(json)[name] else Null
  }

  // The reader.

  predicate ReadableVerdict(block: Json)
  {
    && block.Obj?
    && "success" in block.fields && block.fields["success"].Bool?
    && ("failure" in block.fields ==> block.fields["failure"].Bool?)
  }

  predicate ReadableMode(mode: Json)
  {
    mode.Null? || (mode.Str? && mode.text in FAILURE_MODES)
  }

  predicate ReadableJudge(block: Json)
  {
    && block.Obj?
    && "quality" in block.fields && block.fields["quality"].Str? && block.fields["quality"].text in QUALITY_GRADES
    && ReadableMode(Get(block, "failure_mode"))
    && ("disputes_verdict" in block.fields ==> block.fields["disputes_verdict"].Bool?)
  }

  /** `_record_problem` finds nothing. */
  predicate Readable(key: string, record: Json)
  {
    && IsCanonical(key) && record.Obj?
    && (VERDICT in record.fields ==> ReadableVerdict(record.fields[VERDICT]))
    && (JUDGE in record.fields ==> ReadableJudge(record.fields[JUDGE]))
  }

  function Episodes(document: Json): map<string, Json>
  {
    FieldsOf(Get(document, EPISODES))
  }

  /** Python's `version == 1`: also `1.0` and `true`. */
  predicate IsVersionOne(version: Json)
  {
    version == Num(1.0) || version == Bool(true)
  }

  predicate Acceptable(document: Json)
  {
    && document.Obj? && IsVersionOne(Get(document, "schema_version")) && Get(document, EPISODES).Obj?
    && forall key :: key in Episodes(document) ==> Readable(key, Episodes(document)[key])
  }

  // What the reader accepts, told from the document's fields.

  ghost predicate IsFlag(fields: map<string, Json>, name: string)
  {
    name in fields && (fields[name] == Bool(true) || fields[name] == Bool(false))
  }

  /** A verdict states the outcome as a flag, and the failure, if it does at all, as a flag. */
  ghost predicate StatesOutcome(block: Json)
  {
    exists fields :: block == Obj(fields) && IsFlag(fields, "success")
      && ("failure" in fields ==> IsFlag(fields, "failure"))
  }

  /** A judge's block carries a grade of the list; its failure mode, if any, is one of the list, its dispute a flag. */
  ghost predicate StatesGrade(block: Json)
  {
    exists fields :: block == Obj(fields)
      && (exists i :: 0 <= i < 3 && "quality" in fields && fields["quality"] == Str(QUALITY_GRADES[i]))
      && ("failure_mode" in fields && fields["failure_mode"] != Null ==>
            exists mode :: mode in FAILURE_MODES && fields["failure_mode"] == Str(mode))
      && ("disputes_verdict" in fields ==> IsFlag(fields, "disputes_verdict"))
  }

  ghost predicate StatesLabels(record: Json)
  {
    exists fields :: record == Obj(fields)
      && ("deterministic" in fields ==> StatesOutcome(fields["deterministic"]))
      && ("judge" in fields ==> StatesGrade(fields["judge"]))
  }

  /** An object of version one whose episodes are an object of records that can be read, each under the one spelling of
      a whole number. */
  ghost predicate IsSidecar(document: Json)
  {
    exists fields, episodes :: document == Obj(fields)
      && "schema_version" in fields && (fields["schema_version"] == Num(1.0) || fields["schema_version"] == Bool(true))
      && "episodes" in fields && fields["episodes"] == Obj(episodes)
      && forall key :: key in episodes ==> (exists n :: key == Spelling(n)) && StatesLabels(episodes[key])
  }

  lemma VerdictIff(block: Json)
    ensures ReadableVerdict(block) <==> StatesOutcome(block)
  {
    if block.Obj? {
      assert forall fields :: block == Obj(fields) ==> fields == block.fields;
    }
  }

  lemma JudgeIff(block: Json)
    ensures ReadableJudge(block) <==> StatesGrade(block)
  {
    if block.Obj? {
      var fields := block.fields;
      assert forall other :: block == Obj(other) ==> other == fields;
      assert Get(block, "failure_mode") == if "failure_mode" in fields then fields["failure_mode"] else Null;
      if ReadableJudge(block) {
        assert "failure_mode" in fields && fields["failure_mode"].Str? ==>
          fields["failure_mode"] == Str(fields["failure_mode"].text);
        assert fields["quality"] == Str(fields["quality"].text);
      }
    }
  }

  lemma RecordIff(key: string, record: Json)
    ensures Readable(key, record) <==> (exists n :: key == Spelling(n)) && StatesLabels(record)
  {
    if n :| key == Spelling(n) {
      SpellingIsCanonical(n);
    }
    if IsCanonical(key) {
      assert key == Spelling(Value(key));
    }
    if record.Obj? {
      assert forall fields :: record == Obj(fields) ==> fields == record.fields;
      if VERDICT in record.fields {
        VerdictIff(record.fields[VERDICT]);
      }
      if JUDGE in record.fields {
        JudgeIff(record.fields[JUDGE]);
      }
    }
  }

  lemma AcceptableIff(document: Json)
    ensures Acceptable(document) <==> IsSidecar(document)
  {
    if document.Obj? && Get(document, EPISODES).Obj? {
      var fields, episodes := document.fields, Episodes(document);
      assert document == Obj(fields) && fields["episodes"] == Obj(episodes);
      assert forall other, others :: document == Obj(other) && fields["episodes"] == Obj(others) ==>
        other == fields && others == episodes;
      forall key | key in episodes
        ensures Readable(key, episodes[key]) <==> (exists n :: key == Spelling(n)) && StatesLabels(episodes[key])
      {
        RecordIff(key, episodes[key]);
      }
    }
  }

  datatype File = NoFile | Unparseable | Holds(document: Json)

  function ReadLabels(file: File): Option<Json>
  {
    if file.Holds? && Acceptable(file.document) then Some(file.document) else None
  }

  // Blocks of a record.

  function Block(document: Json, key: string, name: string): Option<Json>
  {
    if key in Episodes(document) && name in FieldsOf(Episodes(document)[key])
    then Some(FieldsOf(Episodes(document)[key])[name])
    else None
  }

  /** The document with one block of one record replaced, the record made if there is none. */
  function WithBlock(document: Json, key: string, blank: map<string, Json>, name: string, block: Json): Json
  {
    var record := if key in Episodes(document) then FieldsOf(Episodes(document)[key]) else blank;
    Obj(FieldsOf(document)[EPISODES := Obj(Episodes(document)[key := Obj(record[name := block])])])
  }

  /** Replacing a block changes that block and no other; a readable block leaves the document acceptable. */
  lemma WithBlockChangesOne(document: Json, key: string, blank: map<string, Json>, name: string, block: Json)
    requires Acceptable(document) && blank.Keys == {"episode_index"} && IsCanonical(key)
    requires name == VERDICT || name == JUDGE
    requires if name == VERDICT then ReadableVerdict(block) else ReadableJudge(block)
    ensures var changed := WithBlock(document, key, blank, name, block);
      && Acceptable(changed)
      && Block(changed, key, name) == Some(block)
      && forall k, n :: (n == VERDICT || n == JUDGE) && !(k == key && n == name) ==>
        Block(changed, k, n) == Block(document, k, n)
  {
    var changed := WithBlock(document, key, blank, name, block);
    assert "schema_version" != EPISODES;
    assert Get(changed, "schema_version") == Get(document, "schema_version");
    assert VERDICT != JUDGE;
    hide ReadableVerdict, ReadableJudge, IsCanonical, IsVersionOne;
    assert VERDICT !in blank && JUDGE !in blank;
    forall k | k in Episodes(changed) ensures Readable(k, Episodes(changed)[k]) {
      assert k != key ==> Episodes(changed)[k] == Episodes(document)[k];
    }
  }

  /** The two maps agree but for one key, which the second has. */
  ghost predicate OnlyAt<K, V>(before: map<K, V>, after: map<K, V>, key: K)
  {
    after.Keys == before.Keys + {key} && forall other :: other in before && other != key ==>
      after[other] == before[other]
  }

  /** And whatever else the document, the episodes and the record hold stays as it is; a new record starts as `blank`.
      */
  lemma WithBlockKeepsTheRest(document: Json, key: string, blank: map<string, Json>, name: string, block: Json)
    requires Acceptable(document)
    ensures var changed := WithBlock(document, key, blank, name, block);
      var record := if key in Episodes(document) then FieldsOf(Episodes(document)[key]) else blank;
      && OnlyAt(FieldsOf(document), FieldsOf(changed), "episodes")
      && OnlyAt(Episodes(document), Episodes(changed), key)
      && OnlyAt(record, FieldsOf(Episodes(changed)[key]), name)
  {
    assert EPISODES == "episodes";
    hide Readable, IsVersionOne;
  }

  // Stage one: the predicates' verdicts.

  /** A non-negative whole number, in any real spelling; a boolean is not one. */
  function WholeIndex(value: Json): Option<nat>
  {
    if value.Num? && value.number >= 0.0 && value.number == value.number.Floor as real
    then Some(value.number.Floor)
    else None
  }

  datatype Verdict = Verdict(episode: nat, block: Json)

  /** The index and the block an entry states, or nothing if it is malformed. */
  function EntryVerdict(entry: Json): (verdict: Option<Verdict>)
    ensures verdict.Some? ==> ReadableVerdict(verdict.value.block)
  {
    var fields := FieldsOf(entry);
    var index, success := WholeIndex(Get(entry, "episode")), Get(entry, "success");
    var failure := if "failure" in fields then fields["failure"] else Bool(false);
    if !entry.Obj? || index.None? || !success.Bool? || !failure.Bool? then None
    else
      var carried := map name | name in CARRIED && name in fields :: fields[name];
      assert "success" !in CARRIED && "failure" !in CARRIED && "success" != "failure";
      Some(Verdict(index.value, Obj(map["success" := success, "failure" := failure] + carried)))
  }

  /** The block says what the entry says, and the index is the one the entry names. */
  lemma VerdictIsTheEntrys(entry: Json)
    requires EntryVerdict(entry).Some?
    ensures var Verdict(episode, block) := EntryVerdict(entry).value;
      && Get(entry, "episode") == Num(episode as real)
      && Get(block, "success") == Get(entry, "success")
      && Get(block, "failure") == (if "failure" in FieldsOf(entry) then Get(entry, "failure") else Bool(false))
      && forall name :: name in CARRIED ==> Get(block, name) == Get(entry, name)
  {
    assert "success" !in CARRIED && "failure" !in CARRIED && "success" != "failure";
  }

  function NumberOf(n: nat): Json
  {
    Num(n as real)
  }

  ghost predicate IsWhole(fields: map<string, Json>, name: string)
  {
    name in fields && exists n :: fields[name] == NumberOf(n)
  }

  /** An entry is taken exactly when it is an object with a whole index, a flag for success and, if it says anything of
      failure, a flag for that; and the block holds nothing else. */
  lemma EntryIsTakenIff(entry: Json)
    ensures EntryVerdict(entry).Some? <==>
      exists fields :: (entry == Obj(fields) && IsWhole(fields, "episode") && IsFlag(fields, "success")
                          && ("failure" in fields ==> IsFlag(fields, "failure")))
    ensures EntryVerdict(entry).Some? ==> forall name :: name in FieldsOf(EntryVerdict(entry).value.block) <==>
      name == "success" || name == "failure"
      || (name in FieldsOf(entry) && (name == "steps" || name == "cumulative_reward" || name == "seed"))
  {
    if entry.Obj? {
      var fields := entry.fields;
      assert forall other :: entry == Obj(other) ==> other == fields;
      if EntryVerdict(entry).Some? {
        assert fields["episode"] == NumberOf(WholeIndex(fields["episode"]).value);
      }
    }
  }

  function BlankRecord(episode: nat): map<string, Json>
  {
    map["episode_index" := Num(episode as real)]
  }

  /** Entry after entry; a malformed one undoes the whole call. */
  function Recorded(document: Json, entries: seq<Json>): Option<Json>
  {
    if |entries| == 0 then Some(document)
    else
      var before, verdict := Recorded(document, entries[..|entries| - 1]), EntryVerdict(entries[|entries| - 1]);
      if before.None? || verdict.None? then None
      else
        var episode := verdict.value.episode;
        Some(WithBlock(before.value, Spelling(episode), BlankRecord(episode), VERDICT, verdict.value.block))
  }

  /** The block of the last entry about `key`, or the one there was. */
  function LatestVerdict(entries: seq<Json>, key: string, before: Option<Json>): Option<Json>
  {
    if |entries| == 0 then before
    else
      var verdict := EntryVerdict(entries[|entries| - 1]);
      if verdict.Some? && Spelling(verdict.value.episode) == key then Some(verdict.value.block)
      else LatestVerdict(entries[..|entries| - 1], key, before)
  }

  predicate AllWellFormed(entries: seq<Json>)
  {
    forall i :: 0 <= i < |entries| ==> EntryVerdict(entries[i]).Some?
  }

  /** Recording replaces verdicts and leaves every judge block alone; what it writes can be read back. */
  lemma {:induction false} RecordingKeepsJudges(document: Json, entries: seq<Json>)
    requires Acceptable(document)
    ensures Recorded(document, entries).Some? <==> AllWellFormed(entries)
    ensures Recorded(document, entries).Some? ==> Acceptable(Recorded(document, entries).value)
    ensures Recorded(document, entries).Some? ==>
      forall key :: Block(Recorded(document, entries).value, key, JUDGE) == Block(document, key, JUDGE)
    ensures Recorded(document, entries).Some? ==>
      forall key :: Block(Recorded(document, entries).value, key, VERDICT)
        == LatestVerdict(entries, key, Block(document, key, VERDICT))
  {
    hide EntryVerdict, WithBlock, Acceptable, Block, ReadableVerdict, Spelling, IsCanonical;
    if |entries| > 0 {
      var init, last := entries[..|entries| - 1], entries[|entries| - 1];
      RecordingKeepsJudges(document, init);
      assert AllWellFormed(entries) <==> AllWellFormed(init) && EntryVerdict(last).Some? by {
        assert forall i :: 0 <= i < |init| ==> init[i] == entries[i];
      }
      if Recorded(document, entries).Some? {
        var verdict := EntryVerdict(last).value;
        SpellingIsCanonical(verdict.episode);
        assert VERDICT != JUDGE;
        WithBlockChangesOne(
          Recorded(document, init).value, Spelling(verdict.episode),
          BlankRecord(verdict.episode), VERDICT, verdict.block);
      }
    }
  }

  /** A record that was not there before tells its own index. */
  ghost predicate TellsIndex(document: Json, key: string)
  {
    key in Episodes(document) && IsDigits(key)
      && Get(Episodes(document)[key], "episode_index") == Num(Value(key) as real)
  }

  lemma {:induction false} NewRecordsTellTheirIndex(document: Json, entries: seq<Json>)
    requires Acceptable(document) && AllWellFormed(entries)
    ensures Recorded(document, entries).Some? && Acceptable(Recorded(document, entries).value)
    ensures forall key :: key in Episodes(Recorded(document, entries).value) ==>
      IsDigits(key) && (key in Episodes(document) || TellsIndex(Recorded(document, entries).value, key))
  {
    RecordingKeepsJudges(document, entries);
    if |entries| > 0 {
      var init, last := entries[..|entries| - 1], EntryVerdict(entries[|entries| - 1]).value;
      NewRecordsTellTheirIndex(document, init);
      hide EntryVerdict;
      IndexIsTold(document, Recorded(document, init).value, last);
    }
  }

  lemma IndexIsTold(first: Json, document: Json, verdict: Verdict)
    requires Acceptable(document)
    requires forall key :: key in Episodes(document) ==>
      IsDigits(key) && (key in Episodes(first) || TellsIndex(document, key))
    ensures var key := Spelling(verdict.episode);
      var changed := WithBlock(document, key, BlankRecord(verdict.episode), VERDICT, verdict.block);
      forall other :: other in Episodes(changed) ==>
        IsDigits(other) && (other in Episodes(first) || TellsIndex(changed, other))
  {
    var key := Spelling(verdict.episode);
    ValueOfSpelling(verdict.episode);
    WithBlockKeepsTheRest(document, key, BlankRecord(verdict.episode), VERDICT, verdict.block);
    assert VERDICT != "episode_index";
    hide WithBlock, Acceptable, Spelling, Value;
  }

  function EmptyDocument(benchmark: string): Json
  {
    Obj(map["schema_version" := Num(1.0), "benchmark" := Str(benchmark), EPISODES := Obj(map[])])
  }

  function WithBenchmark(document: Json, benchmark: string): Json
  {
    if benchmark == "" then document else Obj(FieldsOf(document)["benchmark" := Str(benchmark)])
  }

  lemma BenchmarkChangesNoBlock(document: Json, benchmark: string)
    requires Acceptable(document)
    ensures Acceptable(WithBenchmark(document, benchmark))
    ensures Episodes(WithBenchmark(document, benchmark)) == Episodes(document)
  {
    assert "benchmark" != EPISODES && "benchmark" != "schema_version";
    hide Readable, IsVersionOne;
    var changed := WithBenchmark(document, benchmark);
    assert Get(changed, EPISODES) == Get(document, EPISODES);
    assert Episodes(changed) == Episodes(document);
    assert Get(changed, "schema_version") == Get(document, "schema_version");
    assert forall key :: key in Episodes(changed) ==> Readable(key, Episodes(changed)[key]);
  }

  /** A benchmark's name is put down where one is given, and nothing else is changed. */
  lemma BenchmarkIsPutDown(document: Json, benchmark: string)
    requires Acceptable(document)
    ensures benchmark == "" ==> WithBenchmark(document, benchmark) == document
    ensures benchmark != "" ==>
      var fields := FieldsOf(WithBenchmark(document, benchmark));
      OnlyAt(FieldsOf(document), fields, "benchmark") && fields["benchmark"] == Str(benchmark)
    ensures FieldsOf(EmptyDocument(benchmark)).Keys == {"schema_version", "benchmark", "episodes"}
      && FieldsOf(EmptyDocument(benchmark))["benchmark"] == Str(benchmark)
  {
  }

  lemma EmptyIsAcceptable(benchmark: string)
    ensures Acceptable(EmptyDocument(benchmark)) && Episodes(EmptyDocument(benchmark)) == map[]
  {
    assert "schema_version" != EPISODES && "benchmark" != EPISODES && "benchmark" != "schema_version";
  }

  // Stage two: the judge's annotation.

  datatype Annotation = Annotation(
    episode: int, quality: string, failureMode: Option<string>, note: string,
    opinion: Option<bool>, model: string, labeledAt: real)

  predicate UsableAnnotation(a: Annotation)
  {
    a.episode >= 0 && a.quality in QUALITY_GRADES && (a.failureMode.Some? ==> a.failureMode.value in FAILURE_MODES)
  }

  predicate Success(verdict: Json)
  {
    Get(verdict, "success") == Bool(true)
  }

  function JudgeBlock(a: Annotation, verdict: bool): (block: Json)
    ensures UsableAnnotation(a) ==> ReadableJudge(block)
    ensures Get(block, "quality") == Str(a.quality)
    ensures Get(block, "disputes_verdict") == Bool(a.opinion.Some? && a.opinion.value != verdict)
  {
    Obj(map[
      "quality" := Str(a.quality),
      "failure_mode" := if a.failureMode.Some? then Str(a.failureMode.value) else Null,
      "note" := Str(a.note),
      "success_opinion" := if a.opinion.Some? then Bool(a.opinion.value) else Null,
      "disputes_verdict" := Bool(a.opinion.Some? && a.opinion.value != verdict),
      "model" := Str(a.model),
      "labeled_at" := Num(a.labeledAt)])
  }

  /** The block says what the annotation says, field by field, and nothing else but whether it disputes the verdict. */
  lemma JudgeBlockSays(a: Annotation, verdict: bool)
    ensures var fields := FieldsOf(JudgeBlock(a, verdict));
      && fields.Keys == {"quality", "failure_mode", "note", "success_opinion",
        "disputes_verdict", "model", "labeled_at"}
      && (a.failureMode.None? ==> fields["failure_mode"] == Null)
      && (forall mode :: a.failureMode == Some(mode) ==> fields["failure_mode"] == Str(mode))
      && (a.opinion.None? ==> fields["success_opinion"] == Null)
      && (forall opinion :: a.opinion == Some(opinion) ==> fields["success_opinion"] == Bool(opinion))
      && fields["note"] == Str(a.note) && fields["model"] == Str(a.model) && fields["labeled_at"] == Num(a.labeledAt)
  {
  }

  function Annotated(document: Json, a: Annotation): Option<Json>
  {
    if !UsableAnnotation(a) then None
    else
      var verdict := Block(document, Spelling(a.episode), VERDICT);
      if verdict.None? then None
      else Some(WithBlock(document, Spelling(a.episode), BlankRecord(a.episode),
        JUDGE, JudgeBlock(a, Success(verdict.value))))
  }

  /** Annotating sets one judge block and leaves every verdict alone; it needs a verdict to annotate. */
  lemma AnnotatingKeepsVerdicts(document: Json, a: Annotation)
    requires Acceptable(document)
    ensures Annotated(document, a).Some? <==>
      && 0 <= a.episode && a.quality in QUALITY_GRADES && (a.failureMode.None? || a.failureMode.value in FAILURE_MODES)
      && Block(document, Spelling(a.episode), VERDICT).Some?
    ensures Annotated(document, a).Some? ==>
      var changed := Annotated(document, a).value;
      && Acceptable(changed)
      && (forall key :: Block(changed, key, VERDICT) == Block(document, key, VERDICT))
      && (forall key :: key != Spelling(a.episode) ==> Block(changed, key, JUDGE) == Block(document, key, JUDGE))
      && Block(changed, Spelling(a.episode), JUDGE)
           == Some(JudgeBlock(a, Success(Block(document, Spelling(a.episode), VERDICT).value)))
  {
    hide WithBlock, Acceptable, Block, Spelling, IsCanonical, JudgeBlock, ReadableJudge, Success;
    if Annotated(document, a).Some? {
      SpellingIsCanonical(a.episode);
      assert VERDICT != JUDGE;
      WithBlockChangesOne(
        document, Spelling(a.episode), BlankRecord(a.episode), JUDGE,
        JudgeBlock(a, Success(Block(document, Spelling(a.episode), VERDICT).value)));
    }
  }

  // The sidecar file over its life.

  function AfterRecord(file: File, entries: seq<Json>, benchmark: string): File
  {
    var document := if file.NoFile? then Some(EmptyDocument(benchmark)) else ReadLabels(file);
    if |entries| == 0 || document.None? then file
    else
      match Recorded(WithBenchmark(document.value, benchmark), entries)
      case None => file
      case Some(changed) => Holds(changed)
  }

  function AfterAnnotate(file: File, a: Annotation): File
  {
    match ReadLabels(file)
    case None => file
    case Some(document) =>
      match Annotated(document, a)
      case None => file
      case Some(changed) => Holds(changed)
  }

  /** An annotation that was written, with the verdict it was written over. */
  datatype Note = Note(annotation: Annotation, verdict: bool)

  datatype Sidecar = Sidecar(file: File, notes: map<string, Note>)

  datatype Event = Record(entries: seq<Json>, benchmark: string) | Annotate(annotation: Annotation)

  function After(s: Sidecar, event: Event): Sidecar
  {
    match event
    case Record(entries, benchmark) => s.(file := AfterRecord(s.file, entries, benchmark))
    case Annotate(a) =>
      if ReadLabels(s.file).Some? && Annotated(s.file.document, a).Some? then
        var verdict := Block(s.file.document, Spelling(a.episode), VERDICT).value;
        Sidecar(AfterAnnotate(s.file, a), s.notes[Spelling(a.episode) := Note(a, Success(verdict))])
      else s
  }

  function Run(s: Sidecar, events: seq<Event>): Sidecar
  {
    if |events| == 0 then s else After(Run(s, events[..|events| - 1]), events[|events| - 1])
  }

  /** What a record says, against the notes: a judge block stands on a verdict block, and is the one that was written,
      its dispute read off the verdict of that moment. */
  ghost predicate RecordAgrees(document: Json, key: string, notes: map<string, Note>)
  {
    && (Block(document, key, JUDGE).Some? <==> key in notes)
    && (Block(document, key, JUDGE).Some? ==>
          && Block(document, key, VERDICT).Some?
          && UsableAnnotation(notes[key].annotation) && Spelling(notes[key].annotation.episode) == key
          && Block(document, key, JUDGE).value == JudgeBlock(notes[key].annotation, notes[key].verdict))
  }

  ghost predicate Kept(s: Sidecar)
  {
    && !s.file.Unparseable?
    && (s.file.NoFile? ==> s.notes == map[])
    && (s.file.Holds? ==>
      Acceptable(s.file.document) && forall key: string :: RecordAgrees(s.file.document, key, s.notes))
  }

  lemma RecordKeeps(s: Sidecar, entries: seq<Json>, benchmark: string)
    requires Kept(s)
    ensures Kept(After(s, Record(entries, benchmark)))
  {
    hide Acceptable, WithBenchmark, EmptyDocument, Recorded, JudgeBlock, UsableAnnotation, Spelling, LatestVerdict;
    var base := if s.file.NoFile? then EmptyDocument(benchmark) else s.file.document;
    EmptyIsAcceptable(benchmark);
    BenchmarkChangesNoBlock(base, benchmark);
    RecordingKeepsJudges(WithBenchmark(base, benchmark), entries);
    if |entries| > 0 && Recorded(WithBenchmark(base, benchmark), entries).Some? {
      var changed := Recorded(WithBenchmark(base, benchmark), entries).value;
      forall key: string ensures RecordAgrees(changed, key, s.notes) {
        assert Block(WithBenchmark(base, benchmark), key, VERDICT) == Block(base, key, VERDICT);
        assert Block(WithBenchmark(base, benchmark), key, JUDGE) == Block(base, key, JUDGE);
        VerdictsOnlyGrow(entries, key, Block(base, key, VERDICT));
        assert RecordAgrees(base, key, s.notes);
      }
    }
  }

  lemma {:induction false} VerdictsOnlyGrow(entries: seq<Json>, key: string, before: Option<Json>)
    ensures before.Some? ==> LatestVerdict(entries, key, before).Some?
  {
    if |entries| > 0 {
      VerdictsOnlyGrow(entries[..|entries| - 1], key, before);
    }
  }

  lemma AnnotateKeeps(s: Sidecar, a: Annotation)
    requires Kept(s)
    ensures Kept(After(s, Annotate(a)))
  {
    hide Acceptable, Annotated, Block, JudgeBlock, Spelling;
    if ReadLabels(s.file).Some? && Annotated(s.file.document, a).Some? {
      AnnotatingKeepsVerdicts(s.file.document, a);
      var later := After(s, Annotate(a));
      forall key: string ensures RecordAgrees(later.file.document, key, later.notes) {
        assert RecordAgrees(s.file.document, key, s.notes);
      }
    }
  }

  /** Over every run of recording and annotating: every written document can be read back, no judge block is without a
      verdict, and every judge block is the one last written for its episode. */
  lemma {:induction false} RunKeeps(s: Sidecar, events: seq<Event>)
    requires Kept(s)
    ensures Kept(Run(s, events))
  {
    hide Kept, After;
    if |events| > 0 {
      RunKeeps(s, events[..|events| - 1]);
      match events[|events| - 1]
      case Record(entries, benchmark) => RecordKeeps(Run(s, events[..|events| - 1]), entries, benchmark);
      case Annotate(a) => AnnotateKeeps(Run(s, events[..|events| - 1]), a);
    }
  }

  /** The dispute recorded for an episode is right about the verdict that stands exactly when that verdict says what it
      said when the episode was annotated, or the judge gave no opinion. */
  lemma DisputeIsCurrentIff(events: seq<Event>, key: string)
    requires var s := Run(Sidecar(NoFile, map[]), events); s.file.Holds? && Block(s.file.document, key, JUDGE).Some?
    ensures var s := Run(Sidecar(NoFile, map[]), events);
      && key in s.notes && Block(s.file.document, key, VERDICT).Some?
      && var note, verdict := s.notes[key], Success(Block(s.file.document, key, VERDICT).value);
        (Get(Block(s.file.document, key, JUDGE).value, "disputes_verdict")
             == Bool(note.annotation.opinion.Some? && note.annotation.opinion.value != verdict)
         <==> (note.annotation.opinion.None? || note.verdict == verdict))
  {
    RunKeeps(Sidecar(NoFile, map[]), events);
    hide Run, JudgeBlock, Block, Success, UsableAnnotation, Spelling, Acceptable;
    var s := Run(Sidecar(NoFile, map[]), events);
    assert RecordAgrees(s.file.document, key, s.notes);
  }

  /** Recording the other outcome for an annotated episode always leaves its recorded dispute as it was, and so
      wrong. */
  lemma RerecordingGoesStale(s: Sidecar, entry: Json, opinion: bool)
    requires Kept(s) && s.file.Holds? && EntryVerdict(entry).Some?
    requires Block(s.file.document, Spelling(EntryVerdict(entry).value.episode), JUDGE).Some?
    requires Spelling(EntryVerdict(entry).value.episode) in s.notes
    requires s.notes[Spelling(EntryVerdict(entry).value.episode)].annotation.opinion == Some(opinion)
    requires s.notes[Spelling(EntryVerdict(entry).value.episode)].verdict != Success(EntryVerdict(entry).value.block)
    ensures var key, later := Spelling(EntryVerdict(entry).value.episode), After(s, Record([entry], "")).file;
      && later.Holds? && Block(later.document, key, VERDICT) == Some(EntryVerdict(entry).value.block)
      && Block(later.document, key, JUDGE) == Block(s.file.document, key, JUDGE)
      && Get(Block(later.document, key, JUDGE).value, "disputes_verdict")
           != Bool(opinion != Success(EntryVerdict(entry).value.block))
  {
    hide EntryVerdict, Block, Spelling, Acceptable, Recorded, Success, UsableAnnotation, JudgeBlock;
    var key := Spelling(EntryVerdict(entry).value.episode);
    assert RecordAgrees(s.file.document, key, s.notes);
    RecordingKeepsJudges(s.file.document, [entry]);
    assert AllWellFormed([entry]);
  }

  method RecordEach(base: Json, entries: seq<Json>) returns (changed: Option<Json>)
    ensures changed == Recorded(base, entries)
  {
    hide WithBlock, EntryVerdict, Spelling, BlankRecord;
    var document := base;
    for i := 0 to |entries|
      invariant Recorded(base, entries[..i]) == Some(document)
    {
      assert entries[..i + 1][..i] == entries[..i];
      var verdict := EntryVerdict(entries[i]);
      if verdict.None? {
        OneBadEntryUndoesAll(base, entries, i + 1);
        return None;
      }
      var episode := verdict.value.episode;
      document := WithBlock(document, Spelling(episode), BlankRecord(episode), VERDICT, verdict.value.block);
    }
    assert entries[..|entries|] == entries;
    changed := Some(document);
  }

  /** The sidecar of one dataset. */
  class LabelStore {
    var file: File
    ghost var notes: map<string, Note>

    ghost function View(): Sidecar
      reads this
    {
      Sidecar(file, notes)
    }

    constructor ()
      ensures View() == Sidecar(NoFile, map[])
    {
      file, notes := NoFile, map[];
    }

    method RecordVerdicts(rootExists: bool, entries: seq<Json>, benchmark: string) returns (written: bool)
      modifies this
      ensures View() == if rootExists then After(old(View()), Record(entries, benchmark)) else old(View())
      ensures written <==>
        rootExists && |entries| > 0 && AllWellFormed(entries) && (old(file).NoFile? || ReadLabels(old(file)).Some?)
    {
      written := false;
      if !rootExists || |entries| == 0 {
        return;
      }
      var document := EmptyDocument(benchmark);
      EmptyIsAcceptable(benchmark);
      if !file.NoFile? {
        var read := ReadLabels(file);
        if read.None? {
          return;
        }
        document := read.value;
      }
      BenchmarkChangesNoBlock(document, benchmark);
      document := WithBenchmark(document, benchmark);
      RecordingKeepsJudges(document, entries);
      hide Acceptable, AllWellFormed, EmptyDocument, WithBenchmark, Recorded, LatestVerdict, Block;
      var changed := RecordEach(document, entries);
      if changed.None? {
        return;
      }
      file := Holds(changed.value);
      written := true;
    }

    method AnnotateEpisode(a: Annotation) returns (written: bool)
      modifies this
      ensures View() == After(old(View()), Annotate(a))
      ensures written <==> ReadLabels(old(file)).Some? && Annotated(old(file).document, a).Some?
    {
      written := false;
      if !UsableAnnotation(a) {
        return;
      }
      var read := ReadLabels(file);
      if read.None? {
        return;
      }
      var key := Spelling(a.episode);
      var verdict := Block(read.value, key, VERDICT);
      if verdict.None? {
        return;
      }
      file := Holds(WithBlock(read.value, key, BlankRecord(a.episode), JUDGE, JudgeBlock(a, Success(verdict.value))));
      notes := notes[key := Note(a, Success(verdict.value))];
      written := true;
    }
  }

  lemma {:induction false} OneBadEntryUndoesAll(document: Json, entries: seq<Json>, i: nat)
    requires i <= |entries| && Recorded(document, entries[..i]).None?
    ensures Recorded(document, entries).None?
    decreases |entries|
  {
    if i == |entries| {
      assert entries[..i] == entries;
    } else {
      assert entries[..|entries| - 1][..i] == entries[..i];
      OneBadEntryUndoesAll(document, entries[..|entries| - 1], i);
    }
  }
}
