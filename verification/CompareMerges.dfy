/** scripts/check_merge_base_overlap.py: reading a capped diff by halves, in a history that may hold merges. */
module CompareMerges {
  import opened Trees
  import opened CompareRange
  import Order

  /** The commits, each after its parents; the first is the only one without any. */
  datatype History = History(parents: seq<set<nat>>, trees: seq<Tree>)
  {
    ghost predicate Valid()
    {
      && |trees| == |parents|
      && forall c :: 0 <= c < |parents| ==>
           (c > 0 ==> parents[c] != {}) && forall p :: p in parents[c] ==> p < c
    }

    ghost predicate Has(c: nat)
    {
      c < |parents|
    }
  }

  /** The commit and everything it comes from. */
  ghost function Ancestors(h: History, c: nat): (all: set<nat>)
    requires h.Valid() && h.Has(c)
    ensures c in all && forall a :: a in all ==> a <= c
    decreases c
  {
    {c} + set p, a | p in h.parents[c] && a in Ancestors(h, p) :: a
  }

  lemma {:induction false} AncestorsNest(h: History, c: nat, b: nat)
    requires h.Valid() && h.Has(c) && b in Ancestors(h, c)
    ensures Ancestors(h, b) <= Ancestors(h, c)
    decreases c
  {
    if b != c {
      var p :| p in h.parents[c] && b in Ancestors(h, p);
      AncestorsNest(h, p, b);
    }
  }

  lemma {:induction false} RootIsAncestor(h: History, c: nat)
    requires h.Valid() && h.Has(c)
    ensures 0 in Ancestors(h, c)
    decreases c
  {
    if c > 0 {
      var p :| p in h.parents[c];
      RootIsAncestor(h, p);
    }
  }

  ghost function Shared(h: History, a: nat, b: nat): set<nat>
    requires h.Valid() && h.Has(a) && h.Has(b)
  {
    Ancestors(h, a) * Ancestors(h, b)
  }

  /** The commits of a three-dot range. */
  ghost function Range(h: History, base: nat, head: nat): set<nat>
    requires h.Valid() && h.Has(base) && h.Has(head)
  {
    Ancestors(h, head) - Ancestors(h, base)
  }

  /** A best common ancestor: no other comes from it. */
  ghost predicate IsMergeBase(h: History, a: nat, b: nat, m: nat)
    requires h.Valid() && h.Has(a) && h.Has(b)
  {
    m in Shared(h, a, b) && forall x :: x in Shared(h, a, b) && m in Ancestors(h, x) ==> x == m
  }

  /** The first page of the range's commits, none before one it comes from. */
  ghost predicate IsListing(h: History, commits: seq<nat>, range: set<nat>)
    requires h.Valid() && forall c :: c in range ==> h.Has(c)
  {
    && |commits| == (if |range| <= COMMIT_PAGE then |range| else COMMIT_PAGE)
    && (forall i :: 0 <= i < |commits| ==> commits[i] in range)
    && (forall i, j :: 0 <= i < j < |commits| ==> commits[i] != commits[j])
    && forall i, x :: 0 <= i < |commits| && x in range && x in Ancestors(h, commits[i]) ==> x in commits[..i + 1]
  }

  datatype Answer = Answer(files: set<string>, capped: bool, mergeBase: nat, commits: seq<nat>)

  /** The compare endpoint: `api(base, head)` answers the three-dot `base...head`. */
  type Endpoint = (nat, nat) -> Answer

  ghost predicate IsTrue(h: History, base: nat, head: nat, answer: Answer)
    requires h.Valid() && h.Has(base) && h.Has(head)
  {
    && IsMergeBase(h, base, head, answer.mergeBase) && IsListing(h, answer.commits, Range(h, base, head))
    && var diff := Diff(h.trees[answer.mergeBase], h.trees[head]);
      (answer.capped <==> |diff| >= COMPARE_FILE_CAP) && (!answer.capped ==> answer.files == diff)
  }

  ghost predicate Truthful(h: History, api: Endpoint)
    requires h.Valid()
  {
    forall base, head {:trigger api(base, head)} :: h.Has(base) && h.Has(head) ==>
      IsTrue(h, base, head, api(base, head))
  }

  datatype Outcome = Found(paths: set<string>) | Refused(base: nat, head: nat) | TooDeep

  function Middle(n: nat): (k: nat)
    requires n >= 2
    ensures k + 1 < n
  {
    n / 2 - 1
  }

  function Boundary(commits: seq<nat>): nat
    requires |commits| >= 2
  {
    commits[Middle(|commits|)]
  }

  /** `compare_paths`, in an interpreter that nests this many calls. */
  function Compare(api: Endpoint, base: nat, head: nat, depth: nat): Outcome
    decreases depth
  {
    if depth == 0 then TooDeep
    else
      var answer := api(base, head);
      if !answer.capped then Found(answer.files)
      else if |answer.commits| < 2 then Refused(base, head)
      else
        var boundary := Boundary(answer.commits);
        var lower := Compare(api, base, boundary, depth - 1);
        if !lower.Found? then lower
        else
          var upper := Compare(api, boundary, head, depth - 1);
          if !upper.Found? then upper else Found(lower.paths + upper.paths)
  }

  // What the halves hold.

  /** The ends of the diffs read whole: a merge base and a head each. */
  function Links(api: Endpoint, base: nat, head: nat, depth: nat): seq<(nat, nat)>
    decreases depth
  {
    if depth == 0 then []
    else
      var answer := api(base, head);
      if !answer.capped then [(answer.mergeBase, head)]
      else if |answer.commits| < 2 then []
      else
        var boundary := Boundary(answer.commits);
        Links(api, base, boundary, depth - 1) + Links(api, boundary, head, depth - 1)
  }

  ghost predicate AreIn(links: seq<(nat, nat)>, n: nat)
  {
    forall i :: 0 <= i < |links| ==> links[i].0 < n && links[i].1 < n
  }

  /** The paths that differ across some link. */
  ghost predicate IsAcross(trees: seq<Tree>, links: seq<(nat, nat)>, path: string)
    requires AreIn(links, |trees|)
  {
    exists i :: 0 <= i < |links| && path in Diff(trees[links[i].0], trees[links[i].1])
  }

  /** A listed commit all others come from is listed after them: it is not in the first half. */
  lemma HeadIsLate(h: History, commits: seq<nat>, range: set<nat>, head: nat, k: nat)
    requires h.Valid() && h.Has(head) && range <= Ancestors(h, head) && k + 1 < |commits|
    requires (forall c :: c in range ==> h.Has(c)) && IsListing(h, commits, range)
    ensures commits[k] in range && commits[k] != head
  {
    hide Ancestors;
    if commits[k] == head {
      var page := commits[..k + 1];
      forall x | x in range ensures x in Elements(page) {
        assert x in Ancestors(h, commits[k]);
      }
      ElementsAreFew(page);
      Order.SubsetIsFewer(range, Elements(page));
    }
  }

  lemma TellsListing(h: History, api: Endpoint, base: nat, head: nat)
    requires h.Valid() && Truthful(h, api) && h.Has(base) && h.Has(head)
    ensures IsListing(h, api(base, head).commits, Range(h, base, head))
  {
    hide Ancestors, IsListing, IsMergeBase, Diff;
    assert IsTrue(h, base, head, api(base, head));
  }

  lemma BoundaryIsInside(h: History, api: Endpoint, base: nat, head: nat)
    requires h.Valid() && Truthful(h, api) && h.Has(base) && h.Has(head) && |api(base, head).commits| >= 2
    ensures var boundary := Boundary(api(base, head).commits);
      h.Has(boundary) && boundary in Range(h, base, head) && boundary != head
  {
    TellsListing(h, api, base, head);
    hide Truthful, Ancestors, IsListing, Middle;
    var commits := api(base, head).commits;
    HeadIsLate(h, commits, Range(h, base, head), head, Middle(|commits|));
  }

  ghost function Elements(commits: seq<nat>): set<nat>
  {
    set c | c in commits
  }

  lemma {:induction false} ElementsAreFew(commits: seq<nat>)
    ensures |Elements(commits)| <= |commits|
  {
    if |commits| > 0 {
      var init := commits[..|commits| - 1];
      ElementsAreFew(init);
      assert commits == init + [commits[|commits| - 1]];
      assert Elements(commits) == Elements(init) + {commits[|commits| - 1]};
    }
  }

  /** What a read finds is what differs across the diffs it read whole. */
  lemma {:induction false} FoundIsAcross(h: History, api: Endpoint, base: nat, head: nat, depth: nat)
    requires h.Valid() && Truthful(h, api) && h.Has(base) && h.Has(head)
    ensures AreIn(Links(api, base, head, depth), |h.trees|)
    ensures var found := Compare(api, base, head, depth);
      found.Found? ==> forall path :: path in found.paths <==> IsAcross(h.trees, Links(api, base, head, depth), path)
    decreases depth
  {
    hide Ancestors, Diff, IsListing;
    assert IsTrue(h, base, head, api(base, head));
    if depth > 0 && api(base, head).capped && |api(base, head).commits| >= 2 {
      BoundaryIsInside(h, api, base, head);
      var boundary := Boundary(api(base, head).commits);
      FoundIsAcross(h, api, base, boundary, depth - 1);
      FoundIsAcross(h, api, boundary, head, depth - 1);
      AcrossEither(h.trees, Links(api, base, boundary, depth - 1), Links(api, boundary, head, depth - 1));
    } else if depth > 0 && !api(base, head).capped {
      var link := (api(base, head).mergeBase, head);
      assert Links(api, base, head, depth) == [link] && [link][0] == link;
    }
  }

  lemma AcrossEither(trees: seq<Tree>, a: seq<(nat, nat)>, b: seq<(nat, nat)>)
    requires AreIn(a, |trees|) && AreIn(b, |trees|)
    ensures AreIn(a + b, |trees|)
    ensures forall path :: IsAcross(trees, a + b, path) <==> IsAcross(trees, a, path) || IsAcross(trees, b, path)
  {
    hide Diff;
    forall path ensures IsAcross(trees, a + b, path) <==> IsAcross(trees, a, path) || IsAcross(trees, b, path) {
      if i :| 0 <= i < |a| && path in Diff(trees[a[i].0], trees[a[i].1]) {
        assert (a + b)[i] == a[i];
      }
      if i :| 0 <= i < |b| && path in Diff(trees[b[i].0], trees[b[i].1]) {
        assert (a + b)[|a| + i] == b[i];
      }
    }
  }

  /** The two commits are the ends of one link. */
  predicate Joined(links: seq<(nat, nat)>, x: nat, y: nat)
  {
    (x, y) in links || (y, x) in links
  }

  /** Every commit of the chain is joined to the next. */
  ghost predicate IsChain(links: seq<(nat, nat)>, chain: seq<nat>)
  {
    |chain| > 0 && forall i :: 0 <= i < |chain| - 1 ==> Joined(links, chain[i], chain[i + 1])
  }

  ghost predicate Linked(links: seq<(nat, nat)>, x: nat, y: nat)
  {
    exists chain :: IsChain(links, chain) && chain[0] == x && chain[|chain| - 1] == y
  }

  /** Whatever the commits hold, no path that differs between the two is missed. */
  ghost predicate MissesNothing(links: seq<(nat, nat)>, x: nat, y: nat, n: nat)
    requires AreIn(links, n) && x < n && y < n
  {
    forall trees: seq<Tree>, path :: |trees| == n && path in Diff(trees[x], trees[y]) ==> IsAcross(trees, links, path)
  }

  lemma {:induction false} ChainCarries(trees: seq<Tree>, links: seq<(nat, nat)>, chain: seq<nat>, path: string)
    requires AreIn(links, |trees|) && IsChain(links, chain) && !IsAcross(trees, links, path)
    requires forall i :: 0 <= i < |chain| ==> chain[i] < |trees|
    ensures path !in Diff(trees[chain[0]], trees[chain[|chain| - 1]])
  {
    if |chain| > 1 {
      var init, x, y := chain[..|chain| - 1], chain[|chain| - 2], chain[|chain| - 1];
      assert forall i :: 0 <= i < |init| ==> init[i] == chain[i];
      ChainCarries(trees, links, init, path);
      assert Joined(links, x, y);
    }
  }

  lemma ChainStaysIn(links: seq<(nat, nat)>, chain: seq<nat>, n: nat, i: nat)
    requires AreIn(links, n) && IsChain(links, chain) && chain[0] < n && i < |chain|
    ensures chain[i] < n
  {
    if i > 0 {
      assert Joined(links, chain[i - 1], chain[i]);
    }
  }

  lemma LinkedGrows(links: seq<(nat, nat)>, x: nat, y: nat, z: nat)
    requires Linked(links, x, y) && Joined(links, y, z)
    ensures Linked(links, x, z)
  {
    var chain :| IsChain(links, chain) && chain[0] == x && chain[|chain| - 1] == y;
    assert IsChain(links, chain + [z]);
  }

  /** Diffs between these ends miss nothing between two commits, whatever the commits hold, if and only if the ends link
      the one to the other. */
  lemma MissesNothingIff(links: seq<(nat, nat)>, x: nat, y: nat, n: nat)
    requires AreIn(links, n) && x < n && y < n
    ensures MissesNothing(links, x, y, n) <==> Linked(links, x, y)
  {
    if Linked(links, x, y) {
      var chain :| IsChain(links, chain) && chain[0] == x && chain[|chain| - 1] == y;
      forall trees: seq<Tree>, path | |trees| == n && path in Diff(trees[x], trees[y])
        ensures IsAcross(trees, links, path)
      {
        forall i | 0 <= i < |chain| ensures chain[i] < n {
          ChainStaysIn(links, chain, n, i);
        }
        if !IsAcross(trees, links, path) {
          ChainCarries(trees, links, chain, path);
        }
      }
    } else {
      var trees := TwoSides(links, x, n);
      assert IsChain(links, [x]);
      assert "p" in Diff(trees[x], trees[y]);
      assert !IsAcross(trees, links, "p") by {
        forall i | 0 <= i < |links| ensures "p" !in Diff(trees[links[i].0], trees[links[i].1]) {
          var (a, b) := links[i];
          assert Joined(links, a, b) && Joined(links, b, a);
          if Linked(links, x, a) {
            LinkedGrows(links, x, a, b);
          }
          if Linked(links, x, b) {
            LinkedGrows(links, x, b, a);
          }
        }
      }
    }
  }

  /** One tree for the commits linked to `x`, another for the rest. */
  ghost function TwoSides(links: seq<(nat, nat)>, x: nat, n: nat): seq<Tree>
  {
    seq(n, c requires 0 <= c < n => if Linked(links, x, c) then map["p" := "here"] else map[])
  }

  /** A read that finds something misses no path of the range, whatever the commits hold, if and only if the diffs it
      read whole link the range's merge base to its head. */
  lemma ReadMissesNothingIff(h: History, api: Endpoint, base: nat, head: nat, depth: nat)
    requires h.Valid() && Truthful(h, api) && h.Has(base) && h.Has(head) && Compare(api, base, head, depth).Found?
    ensures var links, m := Links(api, base, head, depth), api(base, head).mergeBase;
      && AreIn(links, |h.trees|) && h.Has(m)
      && (forall path :: path in Compare(api, base, head, depth).paths <==> IsAcross(h.trees, links, path))
      && (MissesNothing(links, m, head, |h.trees|) <==> Linked(links, m, head))
      && (Linked(links, m, head) ==> Diff(h.trees[m], h.trees[head]) <= Compare(api, base, head, depth).paths)
  {
    hide Ancestors, Diff, IsAcross, Compare, Links, IsListing, Linked;
    assert IsTrue(h, base, head, api(base, head));
    FoundIsAcross(h, api, base, head, depth);
    MissesNothingIff(Links(api, base, head, depth), api(base, head).mergeBase, head, |h.trees|);
  }

  // Whether the halves are shorter.

  lemma Remaining(all: set<nat>, taken: set<nat>)
    ensures |all - taken| == |all| - |all * taken|
  {
    assert all == (all - taken) + all * taken;
  }

  lemma ShorterSets(all: set<nat>, below: set<nat>, known: set<nat>, head: nat)
    requires below <= all && head in all && head !in below && head !in known
    ensures |below - known| < |all - known|
    ensures |all - below| < |all - known| <==> |below| > |all * known|
  {
    Order.SubsetIsFewer(below - known, (all - known) - {head});
    assert all - known == ((all - known) - {head}) + {head};
    Remaining(all, below);
    Remaining(all, known);
    assert all * below == below;
  }

  /** The lower half is always shorter. The upper one is if and only if the boundary comes from more commits than the
      two ends of the range have in common. */
  lemma HalvesAreShorterIff(h: History, api: Endpoint, base: nat, head: nat)
    requires h.Valid() && Truthful(h, api) && h.Has(base) && h.Has(head) && |api(base, head).commits| >= 2
    ensures var boundary := Boundary(api(base, head).commits);
      && h.Has(boundary) && |Range(h, base, boundary)| < |Range(h, base, head)|
      && (|Range(h, boundary, head)| < |Range(h, base, head)| <==> |Ancestors(h, boundary)| > |Shared(h, base, head)|)
  {
    hide Truthful, Ancestors;
    BoundaryIsInside(h, api, base, head);
    var boundary := Boundary(api(base, head).commits);
    AncestorsNest(h, head, boundary);
    if head in Ancestors(h, base) {
      AncestorsNest(h, base, head);
    }
    ShorterSets(Ancestors(h, head), Ancestors(h, boundary), Ancestors(h, base), head);
    assert Ancestors(h, head) * Ancestors(h, base) == Shared(h, base, head);
  }

  /** Every boundary there is to split at leaves a shorter upper half. */
  ghost predicate AlwaysShorter(h: History, api: Endpoint)
    requires h.Valid() && Truthful(h, api)
  {
    forall base, head :: h.Has(base) && h.Has(head) ==> UpperIsShorter(h, api, base, head)
  }

  ghost predicate UpperIsShorter(h: History, api: Endpoint, base: nat, head: nat)
    requires h.Valid() && Truthful(h, api) && h.Has(base) && h.Has(head)
  {
    api(base, head).capped && |api(base, head).commits| >= 2 ==>
      var boundary := Boundary(api(base, head).commits);
      h.Has(boundary) && |Ancestors(h, boundary)| > |Shared(h, base, head)|
  }

  /** Then a read never goes deeper than the range has commits. */
  lemma {:induction false} ShorterEnds(h: History, api: Endpoint, base: nat, head: nat, depth: nat)
    requires h.Valid() && Truthful(h, api) && h.Has(base) && h.Has(head) && AlwaysShorter(h, api)
    requires depth > |Range(h, base, head)|
    ensures !Compare(api, base, head, depth).TooDeep?
    decreases depth
  {
    hide Truthful, Ancestors, Range;
    if api(base, head).capped && |api(base, head).commits| >= 2 {
      HalvesAreShorterIff(h, api, base, head);
      assert UpperIsShorter(h, api, base, head);
      var boundary := Boundary(api(base, head).commits);
      ShorterEnds(h, api, base, boundary, depth - 1);
      ShorterEnds(h, api, boundary, head, depth - 1);
    }
  }

  // Without merges.

  ghost predicate NoMerges(h: History)
    requires h.Valid()
  {
    forall c: nat, p, q :: h.Has(c) && p in h.parents[c] && q in h.parents[c] ==> p == q
  }

  lemma {:induction false} Comparable(h: History, c: nat, a: nat, b: nat)
    requires h.Valid() && NoMerges(h) && h.Has(c) && a in Ancestors(h, c) && b in Ancestors(h, c)
    ensures a in Ancestors(h, b) || b in Ancestors(h, a)
    decreases c
  {
    if a != c && b != c {
      var p :| p in h.parents[c] && a in Ancestors(h, p);
      var q :| q in h.parents[c] && b in Ancestors(h, q);
      assert p == q;
      Comparable(h, p, a, b);
    }
  }

  /** The ends of a range have in common what their merge base comes from. */
  lemma SharedIsBelow(h: History, base: nat, head: nat, m: nat)
    requires h.Valid() && NoMerges(h) && h.Has(base) && h.Has(head) && IsMergeBase(h, base, head, m)
    ensures Shared(h, base, head) == Ancestors(h, m)
  {
    hide Ancestors, NoMerges;
    AncestorsNest(h, base, m);
    AncestorsNest(h, head, m);
    forall x | x in Shared(h, base, head) ensures x in Ancestors(h, m) {
      Comparable(h, head, x, m);
    }
  }

  /** A boundary between two commits comes from their merge base, which is also the lower half's; and it is its own
      merge base with the head. */
  lemma BoundaryIsBetween(h: History, base: nat, head: nat, boundary: nat, m: nat, lower: nat, upper: nat)
    requires h.Valid() && NoMerges(h) && h.Has(base) && h.Has(head) && h.Has(boundary)
    requires IsMergeBase(h, base, head, m) && boundary in Range(h, base, head)
    requires IsMergeBase(h, base, boundary, lower) && IsMergeBase(h, boundary, head, upper)
    ensures |Ancestors(h, boundary)| > |Shared(h, base, head)| && lower == m && upper == boundary
  {
    hide Ancestors, NoMerges;
    SharedIsBelow(h, base, head, m);
    AncestorsNest(h, base, m);
    AncestorsNest(h, head, boundary);
    Comparable(h, head, m, boundary);
    AncestorsNest(h, boundary, m);
    assert Ancestors(h, m) <= Ancestors(h, boundary) - {boundary};
    Order.SubsetIsFewer(Ancestors(h, m), Ancestors(h, boundary) - {boundary});
    assert Ancestors(h, boundary) == (Ancestors(h, boundary) - {boundary}) + {boundary};
    assert lower in Shared(h, base, head) && m in Shared(h, base, boundary);
    assert upper in Ancestors(h, boundary) && boundary in Shared(h, boundary, head);
  }

  lemma LinkedAppend(a: seq<(nat, nat)>, b: seq<(nat, nat)>, x: nat, y: nat, z: nat)
    requires Linked(a, x, y) && Linked(b, y, z)
    ensures Linked(a + b, x, z)
  {
    var left :| IsChain(a, left) && left[0] == x && left[|left| - 1] == y;
    var right :| IsChain(b, right) && right[0] == y && right[|right| - 1] == z;
    var chain := left + right[1..];
    forall i | 0 <= i < |chain| - 1 ensures Joined(a + b, chain[i], chain[i + 1]) {
      if i < |left| - 1 {
        assert Joined(a, left[i], left[i + 1]);
      } else {
        assert Joined(b, right[i - |left| + 1], right[i - |left| + 2]);
      }
    }
    assert IsChain(a + b, chain);
  }

  /** Both halves are shorter, and meet at the boundary. */
  lemma HalvesMeet(h: History, api: Endpoint, base: nat, head: nat)
    requires h.Valid() && NoMerges(h) && Truthful(h, api) && h.Has(base) && h.Has(head)
    requires |api(base, head).commits| >= 2
    ensures var boundary := Boundary(api(base, head).commits);
      && h.Has(boundary) && |Range(h, base, boundary)| < |Range(h, base, head)|
      && |Range(h, boundary, head)| < |Range(h, base, head)|
      && api(base, boundary).mergeBase == api(base, head).mergeBase && api(boundary, head).mergeBase == boundary
  {
    hide Ancestors, Range, IsListing, IsMergeBase, NoMerges, Diff;
    BoundaryIsInside(h, api, base, head);
    var boundary := Boundary(api(base, head).commits);
    assert IsTrue(h, base, head, api(base, head));
    assert IsTrue(h, base, boundary, api(base, boundary)) && IsTrue(h, boundary, head, api(boundary, head));
    BoundaryIsBetween(h, base, head, boundary, api(base, head).mergeBase, api(base, boundary).mergeBase,
      api(boundary, head).mergeBase);
    HalvesAreShorterIff(h, api, base, head);
  }

  /** In a history without merges every read ends, and one that finds something misses nothing. */
  lemma {:induction false} NoMergesMissesNothing(h: History, api: Endpoint, base: nat, head: nat, depth: nat)
    requires h.Valid() && NoMerges(h) && Truthful(h, api) && h.Has(base) && h.Has(head)
    requires depth > |Range(h, base, head)|
    ensures var found, links := Compare(api, base, head, depth), Links(api, base, head, depth);
      !found.TooDeep? && (found.Found? ==> Linked(links, api(base, head).mergeBase, head))
    decreases depth
  {
    hide Range, Linked, NoMerges, Truthful;
    var answer := api(base, head);
    if !answer.capped {
      OneLink((answer.mergeBase, head));
    } else if |answer.commits| >= 2 {
      HalvesMeet(h, api, base, head);
      var boundary := Boundary(answer.commits);
      NoMergesMissesNothing(h, api, base, boundary, depth - 1);
      NoMergesMissesNothing(h, api, boundary, head, depth - 1);
      if Compare(api, base, head, depth).Found? {
        LinkedAppend(Links(api, base, boundary, depth - 1), Links(api, boundary, head, depth - 1),
          answer.mergeBase, boundary, head);
      }
    }
  }

  lemma OneLink(link: (nat, nat))
    ensures Linked([link], link.0, link.1)
  {
    var chain := [link.0, link.1];
    assert link in [link];
    assert IsChain([link], chain);
  }

  // There is such an endpoint for every history: one that lists commits by number.

  ghost function Greatest(some: set<nat>): (m: nat)
    requires some != {}
    ensures m in some && forall x :: x in some ==> x <= m
    decreases |some|
  {
    var x :| x in some;
    var rest := some - {x};
    assert forall y :: y in some ==> y == x || y in rest;
    if rest == {} then x
    else
      var other := Greatest(rest);
      if other > x then other else x
  }

  ghost predicate IsAscending(list: seq<nat>)
  {
    forall i, j :: 0 <= i < j < |list| ==> list[i] < list[j]
  }

  /** The commits below `n` among these, by number. */
  function Ascending(some: set<nat>, n: nat): (all: seq<nat>)
    ensures IsAscending(all) && forall x :: x in all <==> x in some && x < n
  {
    if n == 0 then []
    else
      var before := Ascending(some, n - 1);
      assert forall i :: 0 <= i < |before| ==> before[i] in before;
      if n - 1 in some then before + [n - 1] else before
  }

  lemma {:induction false} ElementsCount(commits: seq<nat>)
    requires IsAscending(commits)
    ensures |Elements(commits)| == |commits|
  {
    if |commits| > 0 {
      var init, last := commits[..|commits| - 1], commits[|commits| - 1];
      ElementsCount(init);
      assert commits == init + [last];
      assert Elements(commits) == Elements(init) + {last};
    }
  }

  function FirstPage(some: set<nat>, n: nat): seq<nat>
  {
    var all := Ascending(some, n);
    if |all| <= COMMIT_PAGE then all else all[..COMMIT_PAGE]
  }

  /** Numbered order lists every commit after those it comes from. */
  lemma ListedBefore(h: History, all: seq<nat>, k: nat, i: nat, x: nat)
    requires h.Valid() && i < k <= |all| && h.Has(all[i]) && x in all && x in Ancestors(h, all[i])
    requires IsAscending(all)
    ensures x in all[..k][..i + 1]
  {
    hide Ancestors;
    var j :| 0 <= j < |all| && all[j] == x;
    assert x <= all[i];
    assert all[..k][..i + 1][j] == x;
  }

  lemma PrefixIsListing(h: History, all: seq<nat>, k: nat, range: set<nat>)
    requires h.Valid() && (forall c :: c in range ==> h.Has(c)) && forall x :: x in all <==> x in range
    requires IsAscending(all)
    requires k <= |all| && k == if |range| <= COMMIT_PAGE then |range| else COMMIT_PAGE
    ensures IsListing(h, all[..k], range)
  {
    hide Ancestors;
    var page := all[..k];
    forall i | 0 <= i < k ensures page[i] == all[i] && page[i] in range {
      assert all[i] in all;
    }
    forall i, x | 0 <= i < k && x in range && x in Ancestors(h, page[i]) ensures x in page[..i + 1] {
      ListedBefore(h, all, k, i, x);
    }
  }

  lemma FirstPageIsListing(h: History, range: set<nat>)
    requires h.Valid() && forall c :: c in range ==> h.Has(c)
    ensures IsListing(h, FirstPage(range, |h.parents|), range)
  {
    var all, page := Ascending(range, |h.parents|), FirstPage(range, |h.parents|);
    assert page == all[..|page|];
    ElementsCount(all);
    assert Elements(all) == range;
    hide Ancestors, Ascending;
    PrefixIsListing(h, all, |page|, range);
  }

  ghost function Answering(h: History, base: nat, head: nat): Answer
    requires h.Valid() && h.Has(base) && h.Has(head)
  {
    RootIsAncestor(h, base);
    RootIsAncestor(h, head);
    var m := Greatest(Shared(h, base, head));
    var diff := Diff(h.trees[m], h.trees[head]);
    Answer(diff, |diff| >= COMPARE_FILE_CAP, m, FirstPage(Range(h, base, head), |h.parents|))
  }

  lemma EndpointExists(h: History) returns (api: Endpoint)
    requires h.Valid()
    ensures Truthful(h, api)
    ensures forall base, head :: h.Has(base) && h.Has(head) ==> api(base, head) == Answering(h, base, head)
  {
    hide Ancestors, Diff, IsListing, FirstPage;
    api := (base: nat, head: nat) =>
      if h.Has(base) && h.Has(head) then Answering(h, base, head) else Answer({}, false, 0, []);
    forall base, head | h.Has(base) && h.Has(head) ensures IsTrue(h, base, head, api(base, head)) {
      var m := Answering(h, base, head).mergeBase;
      FirstPageIsListing(h, Range(h, base, head));
      forall x | x in Shared(h, base, head) && m in Ancestors(h, x) ensures x == m {
        assert x <= m;
      }
    }
  }
}
