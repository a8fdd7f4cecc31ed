/** scripts/check_merge_base_overlap.py: reading a capped diff by halves, and a paginated file list. */
module CompareRange {
  import opened Trees
  import Order

  /** One file of a compare payload; a rename also carries the old name ("" when there is none). */
  datatype Entry = Entry(filename: string, previous: string)

  /** A compare starts at the pull request's own head or at a commit of the base branch. */
  datatype Rev = PullHead | Commit(position: nat)

  datatype Payload = Payload(entries: seq<Entry>, mergeBase: nat, behindBy: nat, commits: seq<nat>)

  /** The compare endpoint: `api(base, head)` answers the three-dot `base...head`. */
  type Api = (Rev, nat) -> Payload

  const COMPARE_FILE_CAP: nat := 300

  /** The commits one compare page can carry. */
  const COMMIT_PAGE: nat := 250

  /** The commit from position `i` to the next changed the path. */
  predicate ChangedAt(trees: seq<Tree>, i: nat, p: string)
  {
    i + 1 < |trees| && p in Diff(trees[i], trees[i + 1])
  }

  /** Some single commit in the range changed the path. */
  ghost predicate Touches(trees: seq<Tree>, from: nat, upto: nat, p: string)
    requires upto < |trees|
  {
    exists i :: from <= i < upto && ChangedAt(trees, i, p)
  }

  /** Both names of every entry, empty ones dropped. */
  function PathsFromEntries(entries: seq<Entry>): set<string>
  {
    (set e | e in entries && e.filename != "" :: e.filename) + (set e | e in entries && e.previous != "" :: e.previous)
  }

  /** Where the three-dot range of a compare starts: position 0 is where the pull request forked. */
  function ForkOf(base: Rev): nat
  {
    match base
    case PullHead => 0
    case Commit(position) => position
  }

  /** A file list as the endpoint sends it: cut at the cap, without saying so. */
  function Capped(full: seq<Entry>): seq<Entry>
  {
    if |full| <= COMPARE_FILE_CAP then full else full[..COMPARE_FILE_CAP]
  }

  /** Some entry carries `p`, as the name of the file or as the name it had. */
  ghost predicate Names(entries: seq<Entry>, p: string)
  {
    exists i :: 0 <= i < |entries| && (entries[i].filename == p || entries[i].previous == p)
  }

  /** Every entry has a name, the paths of the diff are named, and no other path is. */
  ghost predicate CompleteList(trees: seq<Tree>, from: nat, upto: nat, full: seq<Entry>)
    requires from <= upto < |trees|
  {
    && (forall i :: 0 <= i < |full| ==> full[i].filename != "")
    && (forall p :: p in Diff(trees[from], trees[upto]) ==> Names(full, p))
    && (forall p :: Names(full, p) && p != "" ==> p in Diff(trees[from], trees[upto]))
    && "" !in Diff(trees[from], trees[upto])
  }

  /** What the endpoint says of one range: the file list cut at the cap, and the range's commits, first page. */
  ghost predicate HonestAbout(trees: seq<Tree>, api: Api, base: Rev, head: nat)
    requires ForkOf(base) <= head < |trees|
  {
    var from, answer := ForkOf(base), api(base, head);
    && answer.mergeBase == from
    && |answer.commits| == (if head - from <= COMMIT_PAGE then head - from else COMMIT_PAGE)
    && (forall i :: 0 <= i < |answer.commits| ==> answer.commits[i] == from + 1 + i)
    && exists full :: CompleteList(trees, from, head, full) && answer.entries == Capped(full)
  }

  ghost predicate Honest(trees: seq<Tree>, api: Api)
  {
    forall base, head :: ForkOf(base) <= head < |trees| ==> HonestAbout(trees, api, base, head)
  }

  datatype Outcome =
    | Paths(paths: set<string>, mergeBase: nat, behindBy: nat)
    | CapError(base: Rev, head: nat)

  /** `compare_paths` and the compares it made, in order. */
  datatype Run = Run(outcome: Outcome, requests: seq<(Rev, nat)>)

  function ComparePaths(ghost trees: seq<Tree>, api: Api, base: Rev, head: nat): (run: Run)
    requires Honest(trees, api) && ForkOf(base) <= head < |trees|
    decreases head - ForkOf(base), 1
  {
    assert HonestAbout(trees, api, base, head);
    var answer := api(base, head);
    if |answer.entries| >= COMPARE_FILE_CAP then
      var split := PathsAcrossCommitSplit(trees, api, base, head, answer.commits);
      var outcome := if split.outcome.CapError? then split.outcome
                     else split.outcome.(mergeBase := answer.mergeBase, behindBy := answer.behindBy);
      Run(outcome, [(base, head)] + split.requests)
    else
      Run(Paths(PathsFromEntries(answer.entries), answer.mergeBase, answer.behindBy), [(base, head)])
  }

  function PathsAcrossCommitSplit(ghost trees: seq<Tree>, api: Api, base: Rev, head: nat, commits: seq<nat>): (run: Run)
    requires Honest(trees, api) && ForkOf(base) <= head < |trees| && commits == api(base, head).commits
    decreases head - ForkOf(base), 0
  {
    assert HonestAbout(trees, api, base, head);
    if |commits| < 2 then Run(CapError(base, head), [])
    else
      var boundary := commits[|commits| / 2 - 1];
      var lower := ComparePaths(trees, api, base, boundary);
      if lower.outcome.CapError? then lower
      else
        var upper := ComparePaths(trees, api, Commit(boundary), head);
        if upper.outcome.CapError? then Run(upper.outcome, lower.requests + upper.requests)
        else Run(Paths(lower.outcome.paths + upper.outcome.paths, 0, 0), lower.requests + upper.requests)
  }

  // What a successful read holds.

  /** `cuts` splits `from..upto` into consecutive pieces: each cut starts a piece, `upto` ends the last. */
  ghost predicate Cuts(cuts: seq<nat>, from: nat, upto: nat)
  {
    && |cuts| > 0 && cuts[0] == from
    && (forall i :: 0 <= i < |cuts| - 1 ==> cuts[i] < cuts[i + 1])
    && cuts[|cuts| - 1] <= upto && (|cuts| > 1 ==> cuts[|cuts| - 1] < upto)
  }

  /** The net diffs of the pieces, together. */
  ghost function PieceDiffs(trees: seq<Tree>, cuts: seq<nat>, upto: nat): set<string>
    requires |cuts| > 0 && upto < |trees| && forall i :: 0 <= i < |cuts| ==> cuts[i] < |trees|
  {
    var end := if |cuts| == 1 then upto else cuts[1];
    Diff(trees[cuts[0]], trees[end]) + if |cuts| == 1 then {} else PieceDiffs(trees, cuts[1..], upto)
  }

  lemma {:induction false} PieceDiffsAppend(trees: seq<Tree>, a: seq<nat>, mid: nat, b: seq<nat>, upto: nat)
    requires |a| > 0 && |b| > 0 && b[0] == mid && upto < |trees| && mid < |trees|
    requires (forall i :: 0 <= i < |a| ==> a[i] < |trees|) && (forall i :: 0 <= i < |b| ==> b[i] < |trees|)
    ensures PieceDiffs(trees, a + b, upto) == PieceDiffs(trees, a, mid) + PieceDiffs(trees, b, upto)
  {
    if |a| == 1 {
      assert (a + b)[1..] == b;
    } else {
      assert (a + b)[1..] == a[1..] + b;
      PieceDiffsAppend(trees, a[1..], mid, b, upto);
    }
  }

  ghost predicate UnderCap(api: Api, base: Rev, cuts: seq<nat>, head: nat, i: nat)
    requires i < |cuts|
  {
    var start := if i == 0 then base else Commit(cuts[i]);
    var end := if i + 1 < |cuts| then cuts[i + 1] else head;
    |api(start, end).entries| < COMPARE_FILE_CAP
  }

  /** What a read amounts to: consecutive pieces, each read whole. */
  ghost predicate ReadAs(trees: seq<Tree>, api: Api, base: Rev, head: nat, run: Run, cuts: seq<nat>)
    requires head < |trees|
  {
    && Cuts(cuts, ForkOf(base), head)
    && (forall i :: 0 <= i < |cuts| ==> cuts[i] < |trees| && UnderCap(api, base, cuts, head, i))
    && run.outcome.Paths? && run.outcome.paths == PieceDiffs(trees, cuts, head)
    && |run.requests| == 2 * |cuts| - 1
  }

  lemma CutsJoin(a: seq<nat>, from: nat, mid: nat, b: seq<nat>, upto: nat)
    requires Cuts(a, from, mid) && Cuts(b, mid, upto) && from < mid < upto
    ensures Cuts(a + b, from, upto)
  {
  }

  lemma UnderCapJoins(api: Api, base: Rev, a: seq<nat>, mid: nat, b: seq<nat>, head: nat, i: nat)
    requires |a| > 0 && |b| > 0 && b[0] == mid && i < |a + b|
    requires forall k :: 0 <= k < |a| ==> UnderCap(api, base, a, mid, k)
    requires forall k :: 0 <= k < |b| ==> UnderCap(api, Commit(mid), b, head, k)
    ensures UnderCap(api, base, a + b, head, i)
  {
    if i < |a| {
      assert UnderCap(api, base, a, mid, i);
    } else {
      assert UnderCap(api, Commit(mid), b, head, i - |a|);
    }
  }

  lemma JoinReads(trees: seq<Tree>, api: Api, base: Rev, mid: nat, head: nat, lower: Run, upper: Run, run: Run,
      a: seq<nat>, b: seq<nat>)
    requires ForkOf(base) < mid < head < |trees|
    requires ReadAs(trees, api, base, mid, lower, a) && ReadAs(trees, api, Commit(mid), head, upper, b)
    requires run.outcome.Paths? && run.outcome.paths == lower.outcome.paths + upper.outcome.paths
    requires |run.requests| == 1 + |lower.requests| + |upper.requests|
    ensures ReadAs(trees, api, base, head, run, a + b)
  {
    assert b[0] == mid && |a| > 0;
    PieceDiffsAppend(trees, a, mid, b, head);
    CutsJoin(a, ForkOf(base), mid, b, head);
    hide Cuts, PieceDiffs;
    forall i | 0 <= i < |a + b|
      ensures (a + b)[i] < |trees| && UnderCap(api, base, a + b, head, i)
    {
      UnderCapJoins(api, base, a, mid, b, head, i);
    }
  }

  /** A successful read is the union of the net diffs of consecutive pieces, every piece's own list complete. */
  lemma {:induction false} ReadsPieces(trees: seq<Tree>, api: Api, base: Rev, head: nat) returns (cuts: seq<nat>)
    requires Honest(trees, api) && ForkOf(base) <= head < |trees|
    requires ComparePaths(trees, api, base, head).outcome.Paths?
    ensures ReadAs(trees, api, base, head, ComparePaths(trees, api, base, head), cuts)
    decreases head - ForkOf(base)
  {
    assert HonestAbout(trees, api, base, head);
    var answer := api(base, head);
    if |answer.entries| >= COMPARE_FILE_CAP {
      var boundary := answer.commits[|answer.commits| / 2 - 1];
      var a := ReadsPieces(trees, api, base, boundary);
      var b := ReadsPieces(trees, api, Commit(boundary), head);
      cuts := a + b;
      JoinReads(trees, api, base, boundary, head, ComparePaths(trees, api, base, boundary),
        ComparePaths(trees, api, Commit(boundary), head), ComparePaths(trees, api, base, head), a, b);
    } else {
      cuts := [ForkOf(base)];
      assert UnderCap(api, base, cuts, head, 0);
    }
  }

  lemma {:induction false} CutsAreFew(cuts: seq<nat>, from: nat, upto: nat)
    requires Cuts(cuts, from, upto)
    ensures |cuts| <= 1 || |cuts| <= upto - from
  {
    if |cuts| > 1 {
      var rest := cuts[1..];
      CutsAreFew(rest, cuts[1], upto);
    }
  }

  lemma {:induction false} PieceDiffsCover(trees: seq<Tree>, cuts: seq<nat>, from: nat, upto: nat)
    requires Cuts(cuts, from, upto) && upto < |trees| && forall i :: 0 <= i < |cuts| ==> cuts[i] < |trees|
    ensures Diff(trees[from], trees[upto]) <= PieceDiffs(trees, cuts, upto)
  {
    if |cuts| > 1 {
      PieceDiffsCover(trees, cuts[1..], cuts[1], upto);
    }
  }

  /** A path that differs between the ends of a range was changed by some commit in it. */
  lemma {:induction false} DiffIsTouched(trees: seq<Tree>, from: nat, upto: nat, p: string)
    requires from <= upto < |trees| && p in Diff(trees[from], trees[upto])
    ensures Touches(trees, from, upto, p)
    decreases upto
  {
    if !ChangedAt(trees, upto - 1, p) {
      DiffIsTouched(trees, from, upto - 1, p);
    }
  }

  lemma {:induction false} PieceDiffsTouched(trees: seq<Tree>, cuts: seq<nat>, from: nat, upto: nat, p: string)
    requires Cuts(cuts, from, upto) && upto < |trees| && forall i :: 0 <= i < |cuts| ==> cuts[i] < |trees|
    requires p in PieceDiffs(trees, cuts, upto)
    ensures Touches(trees, from, upto, p)
  {
    if |cuts| == 1 {
      DiffIsTouched(trees, from, upto, p);
    } else {
      CutsAreFew(cuts[1..], cuts[1], upto);
      var first := Diff(trees[from], trees[cuts[1]]);
      if p in first {
        DiffIsTouched(trees, from, cuts[1], p);
      } else {
        PieceDiffsTouched(trees, cuts[1..], cuts[1], upto, p);
      }
    }
  }

  /** A read that succeeds misses no path of the range's net diff and names none that no commit changed,
      in at most 2n - 1 requests for n commits; its merge base and lag are the whole range's. */
  lemma ReadIsExactEnough(trees: seq<Tree>, api: Api, base: Rev, head: nat)
    requires Honest(trees, api) && ForkOf(base) <= head < |trees|
    requires ComparePaths(trees, api, base, head).outcome.Paths?
    ensures var run, n := ComparePaths(trees, api, base, head), head - ForkOf(base);
      && Diff(trees[ForkOf(base)], trees[head]) <= run.outcome.paths
      && (forall p :: p in run.outcome.paths ==> Touches(trees, ForkOf(base), head, p))
      && |run.requests| <= (if n == 0 then 1 else 2 * n - 1)
      && run.outcome.mergeBase == ForkOf(base) && run.outcome.behindBy == api(base, head).behindBy
  {
    var from, run := ForkOf(base), ComparePaths(trees, api, base, head);
    var cuts := ReadsPieces(trees, api, base, head);
    CutsAreFew(cuts, from, head);
    PieceDiffsCover(trees, cuts, from, head);
    forall p | p in run.outcome.paths
      ensures Touches(trees, from, head, p)
    {
      PieceDiffsTouched(trees, cuts, from, head, p);
    }
    assert HonestAbout(trees, api, base, head);
  }

  // An endpoint that answers so exists.

  function EntriesOf(paths: seq<string>): (entries: seq<Entry>)
    ensures |entries| == |paths| && forall i :: 0 <= i < |paths| ==> entries[i] == Entry(paths[i], "")
  {
    seq(|paths|, i requires 0 <= i < |paths| => Entry(paths[i], ""))
  }

  function PageFrom(from: nat, n: nat): (page: seq<nat>)
    ensures |page| == n && forall i :: 0 <= i < n ==> page[i] == from + 1 + i
  {
    seq(n, i requires 0 <= i < n => from + 1 + i)
  }

  ghost function HonestAnswer(trees: seq<Tree>, base: Rev, head: nat): Payload
    requires ForkOf(base) <= head < |trees|
  {
    var from := ForkOf(base);
    Payload(Capped(EntriesOf(Order.Sorted(Diff(trees[from], trees[head])))), from, 0,
      PageFrom(from, if head - from <= COMMIT_PAGE then head - from else COMMIT_PAGE))
  }

  /** A list of one entry for each path names those paths and, but for the empty old names, nothing else. */
  lemma EntriesName(paths: seq<string>, p: string)
    requires "" !in paths
    ensures p != "" ==> (Names(EntriesOf(paths), p) <==> p in paths)
    ensures forall i :: 0 <= i < |paths| ==> EntriesOf(paths)[i].filename != ""
  {
    var entries := EntriesOf(paths);
    if i :| 0 <= i < |paths| && paths[i] == p {
      assert entries[i].filename == p;
    }
    forall i | 0 <= i < |paths| ensures entries[i].filename != "" {
      assert paths[i] in paths;
    }
  }

  lemma ListOfDiff(trees: seq<Tree>, from: nat, upto: nat)
    requires from <= upto < |trees| && forall tree :: tree in trees ==> "" !in tree
    ensures CompleteList(trees, from, upto, EntriesOf(Order.Sorted(Diff(trees[from], trees[upto]))))
  {
    var diff := Diff(trees[from], trees[upto]);
    var paths := Order.Sorted(diff);
    assert "" !in diff by {
      assert "" !in trees[from] && "" !in trees[upto];
    }
    forall p ensures p in diff <==> p in paths {
      assert p in diff <==> p in Order.Elements(paths);
    }
    forall p ensures p != "" ==> (Names(EntriesOf(paths), p) <==> p in paths) {
      EntriesName(paths, p);
    }
    EntriesName(paths, "");
    hide Diff, Names, EntriesOf;
  }

  lemma AnswersHonestly(trees: seq<Tree>, api: Api, base: Rev, head: nat)
    requires ForkOf(base) <= head < |trees| && forall tree :: tree in trees ==> "" !in tree
    requires api(base, head) == HonestAnswer(trees, base, head)
    ensures HonestAbout(trees, api, base, head)
  {
    hide CompleteList, EntriesOf, Capped, Diff;
    ListOfDiff(trees, ForkOf(base), head);
  }

  /** Some endpoint answers honestly about any trees, whatever was changed from one to the next. */
  lemma HonestEndpointExists(trees: seq<Tree>) returns (api: Api)
    requires forall tree :: tree in trees ==> "" !in tree
    ensures Honest(trees, api)
  {
    hide HonestAbout, HonestAnswer;
    api := (base: Rev, head: nat) =>
      if ForkOf(base) <= head < |trees| then HonestAnswer(trees, base, head) else Payload([], 0, 0, []);
    forall base, head | ForkOf(base) <= head < |trees| ensures HonestAbout(trees, api, base, head) {
      AnswersHonestly(trees, api, base, head);
    }
  }

  /** A single commit of the range whose own file list reaches the cap. */
  ghost predicate CapsAlone(api: Api, base: Rev, from: nat, head: nat, r: Rev)
  {
    && from <= ForkOf(r) < head && (r == base || r == Commit(ForkOf(r)))
    && |api(r, ForkOf(r) + 1).entries| >= COMPARE_FILE_CAP
  }

  lemma EmptyRangeListsNothing(trees: seq<Tree>, api: Api, base: Rev, head: nat)
    requires ForkOf(base) <= head < |trees| && HonestAbout(trees, api, base, head)
    ensures head == ForkOf(base) ==> api(base, head).entries == []
  {
    var full: seq<Entry> :| CompleteList(trees, ForkOf(base), head, full) && api(base, head).entries == Capped(full);
    assert |full| > 0 ==> Names(full, full[0].filename);
  }

  /** The only refusal is a single commit whose own list reaches the cap, and the refusal names that commit's range. */
  lemma {:induction false} RefusesOnlyACappedCommit(trees: seq<Tree>, api: Api, base: Rev, head: nat)
    requires Honest(trees, api) && ForkOf(base) <= head < |trees|
    requires ComparePaths(trees, api, base, head).outcome.CapError?
    ensures var error := ComparePaths(trees, api, base, head).outcome;
      error.head == ForkOf(error.base) + 1 && CapsAlone(api, base, ForkOf(base), head, error.base)
    decreases head - ForkOf(base)
  {
    assert HonestAbout(trees, api, base, head);
    var answer := api(base, head);
    if |answer.commits| < 2 {
      EmptyRangeListsNothing(trees, api, base, head);
    } else {
      var boundary := answer.commits[|answer.commits| / 2 - 1];
      if ComparePaths(trees, api, base, boundary).outcome.CapError? {
        RefusesOnlyACappedCommit(trees, api, base, boundary);
      } else {
        RefusesOnlyACappedCommit(trees, api, Commit(boundary), head);
      }
    }
  }

  // The paginated pull-request file list.

  const PULL_FILE_CAP: nat := 3000
  const PULL_FILE_PAGE: nat := 100

  /** Page `page` (from 1) of a listing. */
  function Page<T>(listing: seq<T>, page: nat): seq<T>
    requires page > 0
  {
    var start := (page - 1) * PULL_FILE_PAGE;
    if start >= |listing| then []
    else if start + PULL_FILE_PAGE <= |listing| then listing[start..start + PULL_FILE_PAGE]
    else listing[start..]
  }

  /** The whole listing exactly when it is shorter than the ceiling, and a refusal otherwise. */
  method PullRequestFileEntries<T>(listing: seq<T>) returns (ok: bool, collected: seq<T>)
    ensures ok <==> |listing| < PULL_FILE_CAP
    ensures ok ==> collected == listing
  {
    collected := [];
    for page := 1 to PULL_FILE_CAP / PULL_FILE_PAGE + 1
      invariant |collected| == (page - 1) * PULL_FILE_PAGE <= |listing|
      invariant collected == listing[..|collected|]
    {
      var rows := Page(listing, page);
      collected := collected + rows;
      if |rows| < PULL_FILE_PAGE {
        return true, collected;
      }
    }
    ok := false;
  }
}
