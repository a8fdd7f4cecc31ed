/** Python's ordering of strings and its `sorted`, shared by every component. */
module Order {

  /** Code-point order, the order Python compares two strings by. */
  predicate Leq(a: string, b: string)
  {
    |a| == 0 || (|b| > 0 && (a[0] < b[0] || (a[0] == b[0] && Leq(a[1..], b[1..]))))
  }

  lemma LeqTotal(a: string, b: string)
    ensures Leq(a, b) || Leq(b, a)
  {
    if |a| > 0 && |b| > 0 && a[0] == b[0] {
      LeqTotal(a[1..], b[1..]);
    }
  }

  lemma LeqAntisymmetric(a: string, b: string)
    requires Leq(a, b) && Leq(b, a)
    ensures a == b
  {
    if |a| > 0 {
      LeqAntisymmetric(a[1..], b[1..]);
      assert a == [a[0]] + a[1..] && b == [b[0]] + b[1..];
    }
  }

  lemma LeqTransitive(a: string, b: string, c: string)
    requires Leq(a, b) && Leq(b, c)
    ensures Leq(a, c)
  {
    if |a| > 0 && a[0] == b[0] && b[0] == c[0] {
      LeqTransitive(a[1..], b[1..], c[1..]);
    }
  }

  ghost predicate Ascending(s: seq<string>)
  {
    forall i, j :: 0 <= i < j < |s| ==> Leq(s[i], s[j])
  }

  ghost predicate Distinct<T>(s: seq<T>)
  {
    forall i, j :: 0 <= i < j < |s| ==> s[i] != s[j]
  }

  function Elements<T>(s: seq<T>): set<T>
  {
    set x | x in s
  }

  lemma LeastExists(bag: multiset<string>) returns (least: string)
    requires |bag| > 0
    ensures least in bag && forall y :: y in bag ==> Leq(least, y)
  {
    hide Leq;
    var x :| x in bag;
    LeqTotal(x, x);
    var rest := bag - multiset{x};
    assert forall y :: y in bag ==> y == x || y in rest;
    if |rest| == 0 {
      least := x;
    } else {
      var m := LeastExists(rest);
      LeqTotal(x, m);
      least := if Leq(x, m) then x else m;
      forall y | y in rest ensures Leq(least, y) {
        if least == x {
          LeqTransitive(x, m, y);
        }
      }
    }
  }

  lemma LeastIsUnique(bag: multiset<string>)
    ensures forall x, y ::
      x in bag && y in bag && (forall z :: z in bag ==> Leq(x, z)) && (forall z :: z in bag ==> Leq(y, z)) ==> x == y
  {
    forall x, y | x in bag && y in bag && (forall z :: z in bag ==> Leq(x, z)) && (forall z :: z in bag ==> Leq(y, z))
      ensures x == y
    {
      LeqAntisymmetric(x, y);
    }
  }

  function Least(bag: multiset<string>): (least: string)
    requires |bag| > 0
    ensures least in bag && forall y :: y in bag ==> Leq(least, y)
  {
    assert exists x :: x in bag && forall y :: y in bag ==> Leq(x, y) by {
      var x := LeastExists(bag);
    }
    LeastIsUnique(bag);
    var least :| least in bag && forall y :: y in bag ==> Leq(least, y);
    least
  }

  /** `sorted(Counter.elements())`: the bag as an ascending list. */
  function SortedBag(bag: multiset<string>): (s: seq<string>)
    ensures multiset(s) == bag
    ensures Ascending(s)
    decreases |bag|
  {
    if |bag| == 0 then []
    else
      var least := Least(bag);
      var rest := SortedBag(bag - multiset{least});
      BagCons(least, rest, bag);
      AscendingCons(least, rest);
      [least] + rest
  }

  lemma BagCons(least: string, rest: seq<string>, bag: multiset<string>)
    requires least in bag && multiset(rest) == bag - multiset{least}
    requires forall y :: y in bag ==> Leq(least, y)
    ensures multiset([least] + rest) == bag
    ensures forall i :: 0 <= i < |rest| ==> Leq(least, rest[i])
  {
    hide Leq;
    forall i | 0 <= i < |rest| ensures Leq(least, rest[i]) {
      assert rest[i] in multiset(rest);
    }
  }

  lemma AscendingCons(least: string, rest: seq<string>)
    requires Ascending(rest) && forall i :: 0 <= i < |rest| ==> Leq(least, rest[i])
    ensures Ascending([least] + rest)
  {
    hide Leq;
  }

  /** `sorted(set)`. */
  function Sorted(names: set<string>): (s: seq<string>)
    ensures Elements(s) == names
    ensures Ascending(s) && Distinct(s)
    ensures |s| == |names|
  {
    var s := SortedBag(multiset(names));
    assert forall x :: x in s <==> x in multiset(s);
    SingleCountsAreDistinct(s);
    s
  }

  lemma SingleCountsAreDistinct<T>(s: seq<T>)
    requires forall x :: multiset(s)[x] <= 1
    ensures Distinct(s)
  {
    forall i, j | 0 <= i < j < |s| ensures s[i] != s[j] {
      assert s == s[..i] + [s[i]] + s[i + 1..j] + [s[j]] + s[j + 1..];
      assert multiset(s)[s[i]] >= multiset([s[i]])[s[i]] + multiset([s[j]])[s[i]];
    }
  }

  lemma DistinctIsSet<T>(s: seq<T>)
    requires Distinct(s)
    ensures multiset(s) == multiset(Elements(s))
  {
    if |s| > 0 {
      var init, last := s[..|s| - 1], s[|s| - 1];
      DistinctIsSet(init);
      assert s == init + [last];
      assert Elements(s) == Elements(init) + {last};
    }
  }

  lemma DistinctBag<T>(s: seq<T>, t: seq<T>)
    requires Distinct(s) && multiset(s) == multiset(t)
    ensures Distinct(t)
  {
    DistinctIsSet(s);
    SingleCountsAreDistinct(t);
  }

  /** Two ascending lists of one bag are one list, so the sort is a function of its contents. */
  lemma {:induction false} AscendingIsUnique(s: seq<string>, t: seq<string>)
    requires Ascending(s) && Ascending(t) && multiset(s) == multiset(t)
    ensures s == t
  {
    SameSize(s, t);
    if |s| > 0 {
      FirstOf(s, t);
      FirstOf(t, s);
      LeqAntisymmetric(s[0], t[0]);
      TailBags(s, t);
      assert Ascending(s[1..]) && Ascending(t[1..]);
      AscendingIsUnique(s[1..], t[1..]);
    }
  }

  lemma SameSize<T>(s: seq<T>, t: seq<T>)
    requires multiset(s) == multiset(t)
    ensures |s| == |t|
  {
    assert |s| == |multiset(s)| == |t|;
  }

  lemma TailBags<T>(s: seq<T>, t: seq<T>)
    requires |s| > 0 && |t| > 0 && s[0] == t[0] && multiset(s) == multiset(t)
    ensures multiset(s[1..]) == multiset(t[1..])
    ensures s[1..] == t[1..] ==> s == t
  {
    assert s == [s[0]] + s[1..] && t == [t[0]] + t[1..];
    assert multiset(s[1..]) == multiset(s) - multiset{s[0]};
    assert multiset(t[1..]) == multiset(t) - multiset{t[0]};
  }

  lemma FirstOf(s: seq<string>, t: seq<string>)
    requires |s| == |t| > 0
    requires Ascending(s) && multiset(s) == multiset(t)
    ensures Leq(s[0], t[0])
  {
    assert t[0] in multiset(s);
    var i :| 0 <= i < |s| && s[i] == t[0];
    LeqTotal(s[0], s[0]);
  }

  // `sorted(found, key=len, reverse=True)`: longest first, ties in the order found.

  function InsertByLength<T>(x: seq<T>, s: seq<seq<T>>): seq<seq<T>>
  {
    if |s| == 0 then [x]
    else if |s[|s| - 1]| >= |x| then s + [x]
    else InsertByLength(x, s[..|s| - 1]) + [s[|s| - 1]]
  }

  function LongestFirst<T>(s: seq<seq<T>>): seq<seq<T>>
  {
    if |s| == 0 then [] else InsertByLength(s[|s| - 1], LongestFirst(s[..|s| - 1]))
  }

  ghost predicate Shrinking<T>(s: seq<seq<T>>)
  {
    forall i, j :: 0 <= i < j < |s| ==> |s[i]| >= |s[j]|
  }

  /** The entries of one length, in order: what a stable sort by length may not disturb. */
  ghost function OfLength<T>(s: seq<seq<T>>, n: nat): seq<seq<T>>
  {
    if |s| == 0 then []
    else OfLength(s[..|s| - 1], n) + if |s[|s| - 1]| == n then [s[|s| - 1]] else []
  }

  lemma OfLengthAppend<T>(s: seq<seq<T>>, x: seq<T>, n: nat)
    ensures OfLength(s + [x], n) == OfLength(s, n) + if |x| == n then [x] else []
  {
    assert (s + [x])[..|s|] == s;
  }

  lemma {:induction false} InsertByLengthBag<T>(x: seq<T>, s: seq<seq<T>>)
    ensures multiset(InsertByLength(x, s)) == multiset(s) + multiset{x}
  {
    if |s| > 0 && |s[|s| - 1]| < |x| {
      InsertByLengthBag(x, s[..|s| - 1]);
      assert s == s[..|s| - 1] + [s[|s| - 1]];
    }
  }

  lemma {:induction false} InsertByLengthShrinking<T>(x: seq<T>, s: seq<seq<T>>)
    requires Shrinking(s)
    ensures Shrinking(InsertByLength(x, s))
  {
    if |s| > 0 && |s[|s| - 1]| < |x| {
      var init, last := s[..|s| - 1], s[|s| - 1];
      InsertByLengthShrinking(x, init);
      InsertByLengthBag(x, init);
      var r := InsertByLength(x, init);
      forall i | 0 <= i < |r| ensures |r[i]| >= |last| {
        assert r[i] in multiset(r);
        assert r[i] == x || r[i] in init;
      }
    }
  }

  lemma {:induction false} InsertByLengthIsStable<T>(x: seq<T>, s: seq<seq<T>>, n: nat)
    requires Shrinking(s)
    ensures OfLength(InsertByLength(x, s), n) == OfLength(s, n) + if |x| == n then [x] else []
  {
    if |s| == 0 {
      OfLengthAppend([], x, n);
      assert [] + [x] == [x];
    } else {
      var init, last := s[..|s| - 1], s[|s| - 1];
      if |last| >= |x| {
        OfLengthAppend(s, x, n);
      } else {
        InsertByLengthIsStable(x, init, n);
        OfLengthAppend(InsertByLength(x, init), last, n);
        assert |x| == n ==> |last| != n;
      }
    }
  }

  lemma {:induction false} LongestFirstIsStable<T>(s: seq<seq<T>>, n: nat)
    ensures Shrinking(LongestFirst(s))
    ensures multiset(LongestFirst(s)) == multiset(s)
    ensures OfLength(LongestFirst(s), n) == OfLength(s, n)
  {
    if |s| > 0 {
      assert s == s[..|s| - 1] + [s[|s| - 1]];
      LongestFirstIsStable(s[..|s| - 1], n);
      InsertByLengthBag(s[|s| - 1], LongestFirst(s[..|s| - 1]));
      InsertByLengthShrinking(s[|s| - 1], LongestFirst(s[..|s| - 1]));
      InsertByLengthIsStable(s[|s| - 1], LongestFirst(s[..|s| - 1]), n);
    }
  }

  lemma SubsetIsFewer<T>(some: set<T>, all: set<T>)
    requires some <= all
    ensures |some| <= |all|
  {
    assert all == some + (all - some);
  }
}
