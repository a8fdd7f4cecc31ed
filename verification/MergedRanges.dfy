/** scripts/check_merge_base_overlap.py: two histories whose ranges the halves read wrongly, or never. */
module MergedRanges {
  import opened Trees
  import opened CompareRange
  import opened CompareMerges
  import opened SplitEnds
  import Order

  /** A tree of these files, all alike. */
  function Holding(paths: set<string>): Tree
  {
    map path | path in paths :: "text"
  }

  lemma HoldingMore(some: set<string>, more: set<string>)
    requires some !! more
    ensures Diff(Holding(some), Holding(some + more)) == more
    ensures Diff(Holding({}), Holding(some)) == some
    ensures |some + more| == |some| + |more|
  {
  }

  lemma OneParent(h: History, c: nat, p: nat)
    requires h.Valid() && h.Has(c) && h.parents[c] == {p}
    ensures Ancestors(h, c) == Ancestors(h, p) + {c}
  {
  }

  lemma TwoParents(h: History, c: nat, p: nat, q: nat)
    requires h.Valid() && h.Has(c) && h.parents[c] == {p, q}
    ensures Ancestors(h, c) == Ancestors(h, p) + Ancestors(h, q) + {c}
  {
  }

  lemma Root(h: History)
    requires h.Valid() && h.Has(0)
    ensures Ancestors(h, 0) == {0}
  {
  }

  /** Where the ends share exactly what one commit comes from, that commit is the merge base the endpoint names. */
  lemma AnswerIs(h: History, api: Endpoint, base: nat, head: nat, m: nat, diff: set<string>)
    requires h.Valid() && Truthful(h, api) && h.Has(base) && h.Has(head) && h.Has(m)
    requires Shared(h, base, head) == Ancestors(h, m) && diff == Diff(h.trees[m], h.trees[head])
    ensures var answer := api(base, head);
      && answer.mergeBase == m && (answer.capped <==> |diff| >= COMPARE_FILE_CAP)
      && (!answer.capped ==> answer.files == diff)
      && IsListing(h, answer.commits, Range(h, base, head))
  {
    hide Ancestors, Diff, IsListing;
    assert IsTrue(h, base, head, api(base, head));
    assert m in Shared(h, base, head) && api(base, head).mergeBase in Shared(h, base, head);
  }

  lemma TwoListed(h: History, commits: seq<nat>, range: set<nat>, first: nat, second: nat)
    requires h.Valid() && h.Has(first) && h.Has(second) && first != second && first in Ancestors(h, second)
    requires range == {first, second} && IsListing(h, commits, range)
    ensures |commits| == 2 && commits[0] == first
  {
    hide Ancestors;
    assert |{first, second}| == 2;
    var page := commits[..0 + 1];
    assert page == [commits[0]];
    assert commits[0] == second ==> first in page;
  }

  /** A base that adds a file, a side branch from before that, and a merge of the two that drops the file again. The
      last commit is a pull request's, on top of the base; what it holds does not matter. */
  ghost predicate IsDropped(h: History, path: string, side: set<string>, merged: set<string>)
  {
    && h.Valid() && h.parents == [{}, {0}, {0}, {1, 2}, {1}]
    && h.trees[..4] == [Holding({}), Holding({path}), Holding(side), Holding(side + merged)]
    && |side| == 150 && |merged| == 150 && side !! merged && path !in side + merged
  }

  lemma DroppedAncestors(h: History)
    requires h.Valid() && h.parents == [{}, {0}, {0}, {1, 2}, {1}]
    ensures Ancestors(h, 0) == {0} && Ancestors(h, 1) == {0, 1} && Ancestors(h, 2) == {0, 2}
    ensures Ancestors(h, 3) == {0, 1, 2, 3} && Ancestors(h, 4) == {0, 1, 4}
  {
    hide Ancestors;
    Root(h);
    OneParent(h, 1, 0);
    OneParent(h, 2, 0);
    TwoParents(h, 3, 1, 2);
    OneParent(h, 4, 1);
  }

  lemma DroppedDiff(path: string, side: set<string>, merged: set<string>)
    requires |side| == 150 && |merged| == 150 && side !! merged && path !in side + merged
    ensures path in Diff(Holding({path}), Holding(side + merged))
    ensures |Diff(Holding({path}), Holding(side + merged))| >= 300
  {
    var diff := Diff(Holding({path}), Holding(side + merged));
    assert |side + merged| == 300;
    assert side + merged <= diff;
    Order.SubsetIsFewer(side + merged, diff);
  }

  lemma DroppedTrees(h: History, path: string, side: set<string>, merged: set<string>)
    requires IsDropped(h, path, side, merged)
    ensures h.trees[0] == Holding({}) && h.trees[1] == Holding({path}) && h.trees[2] == Holding(side)
    ensures h.trees[3] == Holding(side + merged)
  {
    hide Holding;
    assert forall i :: 0 <= i < 4 ==> h.trees[..4][i] == h.trees[i];
  }

  /** The dropped file differs across the range and is missed. */
  lemma DroppedFileIsMissed(h: History, path: string, side: set<string>, merged: set<string>, api: Endpoint, depth: nat)
    requires IsDropped(h, path, side, merged) && Truthful(h, api) && depth > 1
    ensures api(4, 3).mergeBase == 1 && path in Diff(h.trees[1], h.trees[3])
    ensures Compare(api, 4, 3, depth) == Found(side + merged)
  {
    hide Ancestors, Diff, Holding, IsListing, Truthful;
    DroppedAncestors(h);
    DroppedTrees(h, path, side, merged);
    DroppedDiff(path, side, merged);
    HoldingMore(side, merged);
    AnswerIs(h, api, 4, 3, 1, Diff(h.trees[1], h.trees[3]));
    AnswerIs(h, api, 4, 2, 0, side);
    AnswerIs(h, api, 2, 3, 2, merged);
    assert Range(h, 4, 3) == {2, 3};
    TwoListed(h, api(4, 3).commits, Range(h, 4, 3), 2, 3);
    assert Compare(api, 4, 2, depth - 1) == Found(side) && Compare(api, 2, 3, depth - 1) == Found(merged);
  }

  /** Two branches of two commits each from one root and the merge of the two. The last commit is a pull request's, on
      top of the one branch. */
  ghost predicate HasDiamond(h: History)
  {
    h.Valid() && h.parents == [{}, {0}, {1}, {0}, {3}, {2, 4}, {2}]
  }

  /** Each commit of the branches changes 150 files of its own. */
  ghost predicate IsDiamond(h: History, a: set<string>, b: set<string>, c: set<string>, d: set<string>)
  {
    && HasDiamond(h)
    && h.trees[..6] == [Holding({}), Holding(a), Holding(a + b), Holding(c), Holding(c + d), Holding(a + b + (c + d))]
    && |a| == 150 && |b| == 150 && |c| == 150 && |d| == 150
    && a !! b && a !! c && a !! d && b !! c && b !! d && c !! d
  }

  lemma DiamondTrees(h: History, a: set<string>, b: set<string>, c: set<string>, d: set<string>)
    requires IsDiamond(h, a, b, c, d)
    ensures h.trees[0] == Holding({}) && h.trees[1] == Holding(a) && h.trees[2] == Holding(a + b)
    ensures h.trees[3] == Holding(c) && h.trees[5] == Holding(a + b + (c + d))
  {
    hide Holding;
    assert forall i :: 0 <= i < 6 ==> h.trees[..6][i] == h.trees[i];
  }

  lemma DiamondAncestors(h: History)
    requires HasDiamond(h)
    ensures Ancestors(h, 0) == {0} && Ancestors(h, 1) == {0, 1} && Ancestors(h, 2) == {0, 1, 2}
    ensures Ancestors(h, 3) == {0, 3} && Ancestors(h, 5) == {0, 1, 2, 3, 4, 5} && Ancestors(h, 6) == {0, 1, 2, 6}
  {
    hide Ancestors;
    Root(h);
    OneParent(h, 1, 0);
    OneParent(h, 2, 1);
    OneParent(h, 3, 0);
    OneParent(h, 4, 3);
    TwoParents(h, 5, 2, 4);
    OneParent(h, 6, 2);
  }

  /** One branch's two commits, seen from the other: two diffs of half the cap each. */
  lemma BranchIsFound(h: History, api: Endpoint, a: set<string>, b: set<string>, c: set<string>, d: set<string>)
    requires IsDiamond(h, a, b, c, d) && Truthful(h, api)
    ensures IsFound(api, 3, 2)
  {
    hide Ancestors, Diff, Holding, IsListing, Truthful;
    DiamondAncestors(h);
    DiamondTrees(h, a, b, c, d);
    HoldingMore(a, b);
    HoldingMore(a + b, {});
    AnswerIs(h, api, 3, 2, 0, a + b);
    AnswerIs(h, api, 3, 1, 0, a);
    AnswerIs(h, api, 1, 2, 1, b);
    assert Range(h, 3, 2) == {1, 2};
    TwoListed(h, api(3, 2).commits, Range(h, 3, 2), 1, 2);
    assert Compare(api, 3, 2, 2).Found?;
  }

  lemma MergeIsCapped(h: History, api: Endpoint, a: set<string>, b: set<string>, c: set<string>, d: set<string>)
    requires IsDiamond(h, a, b, c, d) && Truthful(h, api)
    ensures api(2, 5).capped && api(3, 5).capped && api(6, 5).capped
    ensures !api(2, 3).capped && !api(6, 3).capped
  {
    hide Ancestors, Diff, Holding, IsListing, Truthful;
    DiamondAncestors(h);
    DiamondTrees(h, a, b, c, d);
    HoldingMore(c, d);
    HoldingMore(a + b, c + d);
    HoldingMore(a, b);
    HoldingMore(c, a + b + d);
    assert c + (a + b + d) == a + b + (c + d);
    Order.SubsetIsFewer(a + b, a + b + d);
    AnswerIs(h, api, 2, 5, 2, c + d);
    AnswerIs(h, api, 6, 5, 2, c + d);
    AnswerIs(h, api, 3, 5, 3, a + b + d);
    AnswerIs(h, api, 2, 3, 0, c);
    AnswerIs(h, api, 6, 3, 0, c);
  }

  lemma DiamondRanges(h: History)
    requires HasDiamond(h)
    ensures Range(h, 2, 5) == {3, 4, 5} && Range(h, 6, 5) == {3, 4, 5} && Range(h, 3, 5) == {1, 2, 4, 5}
  {
    DiamondAncestors(h);
    hide Ancestors;
    SixWithout();
  }

  lemma SixWithout()
    ensures var all: set<nat> := {0, 1, 2, 3, 4, 5};
      all - {0, 1, 2} == {3, 4, 5} && all - {0, 1, 2, 6} == {3, 4, 5} && all - {0, 3} == {1, 2, 4, 5}
  {
  }

  lemma {:induction false} SameWhenAscending(one: seq<nat>, two: seq<nat>)
    requires IsAscending(one) && IsAscending(two) && |one| == |two| && forall x :: x in one <==> x in two
    ensures one == two
  {
    if |one| > 0 {
      var a, x, b, y := one[..|one| - 1], one[|one| - 1], two[..|two| - 1], two[|two| - 1];
      assert one == a + [x] && two == b + [y];
      assert x in two && y in one;
      assert x == y;
      forall z ensures z in a <==> z in b {
        assert z in one <==> z in a || z == x;
        assert z in two <==> z in b || z == y;
      }
      SameWhenAscending(a, b);
    }
  }

  lemma PageIs(list: seq<nat>, n: nat)
    requires IsAscending(list) && |list| <= COMMIT_PAGE && forall x :: x in list ==> x < n
    ensures FirstPage(Elements(list), n) == list
  {
    var all := Ascending(Elements(list), n);
    assert Elements(all) == Elements(list);
    ElementsCount(all);
    ElementsCount(list);
    SameWhenAscending(all, list);
  }

  lemma LowerPage()
    ensures FirstPage({3, 4, 5}, 7) == [3, 4, 5]
  {
    var list: seq<nat> := [3, 4, 5];
    assert list[0] in list && list[1] in list && list[2] in list;
    assert Elements(list) == {3, 4, 5};
    hide FirstPage, Elements;
    PageIs(list, 7);
  }

  lemma UpperPage()
    ensures FirstPage({1, 2, 4, 5}, 7) == [1, 2, 4, 5]
  {
    var list: seq<nat> := [1, 2, 4, 5];
    assert list[0] in list && list[1] in list && list[2] in list && list[3] in list;
    assert Elements(list) == {1, 2, 4, 5};
    hide FirstPage, Elements;
    PageIs(list, 7);
  }

  lemma DiamondPages(h: History)
    requires HasDiamond(h)
    ensures FirstPage(Range(h, 2, 5), 7) == [3, 4, 5] && FirstPage(Range(h, 6, 5), 7) == [3, 4, 5]
    ensures FirstPage(Range(h, 3, 5), 7) == [1, 2, 4, 5]
  {
    hide Ancestors, Range, FirstPage;
    DiamondRanges(h);
    LowerPage();
    UpperPage();
  }

  /** These are orders the endpoint may list the commits in. In them each of two ranges has the other as its upper half,
      so one of the two is not shorter; and the pull request's range has the second as its upper half. */
  lemma UpperHalvesCircle(h: History)
    requires HasDiamond(h)
    ensures IsListing(h, [3, 4, 5], Range(h, 2, 5)) && IsListing(h, [3, 4, 5], Range(h, 6, 5))
    ensures IsListing(h, [1, 2, 4, 5], Range(h, 3, 5))
    ensures Boundary([3, 4, 5]) == 3 && Boundary([1, 2, 4, 5]) == 2
    ensures |Range(h, 3, 5)| > |Range(h, 2, 5)|
  {
    hide Ancestors, IsListing, Range, FirstPage;
    DiamondRanges(h);
    DiamondPages(h);
    FirstPageIsListing(h, Range(h, 2, 5));
    FirstPageIsListing(h, Range(h, 6, 5));
    FirstPageIsListing(h, Range(h, 3, 5));
    assert |{3, 4, 5}| == 3 && |{1, 2, 4, 5}| == 4;
  }

  lemma DiamondIsListed(h: History) returns (api: Endpoint)
    requires HasDiamond(h)
    ensures Truthful(h, api)
    ensures api(2, 5).commits == [3, 4, 5] && api(3, 5).commits == [1, 2, 4, 5] && api(6, 5).commits == [3, 4, 5]
  {
    hide Ancestors, Range, FirstPage, Truthful, Diff;
    api := EndpointExists(h);
    DiamondPages(h);
  }

  lemma ReadAlone(api: Endpoint, base: nat, head: nat)
    requires !api(base, head).capped
    ensures IsFound(api, base, head)
  {
    assert Compare(api, base, head, 1).Found?;
  }

  /** The merge of the two branches, read from the pull request, has a truthful endpoint for which no depth is enough.
      */
  lemma EndlessMerge(h: History, a: set<string>, b: set<string>, c: set<string>, d: set<string>)
    returns (api: Endpoint)
    requires IsDiamond(h, a, b, c, d)
    ensures Truthful(h, api) && forall depth :: Compare(api, 6, 5, depth) == TooDeep
  {
    hide Truthful, Compare, Holding, IsFound;
    api := DiamondIsListed(h);
    hide IsDiamond;
    MergeIsCapped(h, api, a, b, c, d);
    BranchIsFound(h, api, a, b, c, d);
    ReadAlone(api, 2, 3);
    ReadAlone(api, 6, 3);
    CircleRecurs(api);
    forall depth ensures Compare(api, 6, 5, depth) == TooDeep {
      RecursIsDeep(api, (6, 5), depth);
    }
  }

  lemma CircleRecurs(api: Endpoint)
    requires api(2, 5).capped && api(3, 5).capped && api(6, 5).capped
    requires api(2, 5).commits == [3, 4, 5] && api(3, 5).commits == [1, 2, 4, 5] && api(6, 5).commits == [3, 4, 5]
    requires IsFound(api, 6, 3) && IsFound(api, 3, 2) && IsFound(api, 2, 3)
    ensures Recurs(api, (6, 5))
  {
    hide IsFound;
    var spans: seq<Span> := [(6, 5), (3, 5), (2, 5), (3, 5)];
    assert IsHalf(api, spans[0], spans[1]) && IsHalf(api, spans[1], spans[2]) && IsHalf(api, spans[2], spans[3]);
    assert spans[1] == spans[3];
    assert IsDescent(api, spans);
  }
}
