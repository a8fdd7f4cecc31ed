/** scripts/check_import_layers.py: cycles in the import graph, and the layering of its edges. */
module ImportLayers {
  import opened Order
  import opened Digraph
  import opened Tarjan

  // Reported components.

  ghost predicate IsReport(g: Graph, index: map<string, nat>, stack: seq<string>, c: seq<string>)
  {
    |c| > 1 && exists n :: Popped(index, stack, n) && n in g.nodes && c == Sorted(g.Component(n))
  }

  ghost predicate AllGenuine(g: Graph, index: map<string, nat>, stack: seq<string>, found: seq<seq<string>>)
  {
    forall c :: c in found ==> IsReport(g, index, stack, c)
  }

  ghost predicate AllReported(g: Graph, index: map<string, nat>, stack: seq<string>, found: seq<seq<string>>)
  {
    forall n :: Popped(index, stack, n) && n in g.nodes && |g.Component(n)| > 1 ==> Sorted(g.Component(n)) in found
  }

  /** `found` holds the popped components larger than one node, each once. */
  ghost predicate Reported(g: Graph, index: map<string, nat>, stack: seq<string>, found: seq<seq<string>>)
  {
    Distinct(found) && AllGenuine(g, index, stack, found) && AllReported(g, index, stack, found)
  }

  lemma EnterKeepsReported(g: Graph, index: map<string, nat>, counter: nat, stack: seq<string>,
      found: seq<seq<string>>, n: string)
    requires Reported(g, index, stack, found) && n !in index
    ensures Reported(g, index[n := counter], stack + [n], found)
  {
    forall x
      ensures Popped(index[n := counter], stack + [n], x) <==> Popped(index, stack, x)
    {
    }
    forall c | c in found
      ensures IsReport(g, index[n := counter], stack + [n], c)
    {
      assert IsReport(g, index, stack, c);
      var m :| Popped(index, stack, m) && m in g.nodes && c == Sorted(g.Component(m));
      assert Popped(index[n := counter], stack + [n], m);
    }
  }

  lemma PoppedAfter(index: map<string, nat>, stack: seq<string>, k: nat)
    requires k < |stack| && Distinct(stack) && forall x :: x in stack ==> x in index
    ensures forall x :: Popped(index, stack[..k], x) <==> Popped(index, stack, x) || x in stack[k..]
    ensures forall x :: x in stack[k..] ==> !Popped(index, stack, x)
  {
    assert stack == stack[..k] + stack[k..];
    forall x | x in stack[k..]
      ensures x !in stack[..k]
    {
      var j :| 0 <= j < |stack[k..]| && stack[k..][j] == x;
      assert stack[k + j] == x;
    }
  }

  lemma NewReport(g: Graph, index: map<string, nat>, stack: seq<string>, k: nat, found: seq<seq<string>>)
    requires k < |stack| && stack[k] in g.nodes
    requires g.Component(stack[k]) == Elements(stack[k..])
    requires forall x :: x in stack[k..] ==> !Popped(index, stack, x)
    requires AllGenuine(g, index, stack, found)
    ensures Sorted(g.Component(stack[k])) !in found
  {
    var members := Sorted(g.Component(stack[k]));
    forall c | c in found
      ensures c != members
    {
      assert IsReport(g, index, stack, c);
      var n :| Popped(index, stack, n) && n in g.nodes && c == Sorted(g.Component(n));
      g.ReachSelf(n);
      assert n in Elements(c);
      assert n !in Elements(members);
    }
  }

  lemma PopIsGenuine(g: Graph, index: map<string, nat>, stack: seq<string>, k: nat, found: seq<seq<string>>,
      found': seq<seq<string>>)
    requires k < |stack| && stack[k] in g.nodes && AllGenuine(g, index, stack, found)
    requires forall x :: Popped(index, stack, x) || x in stack[k..] ==> Popped(index, stack[..k], x)
    requires var members := Sorted(g.Component(stack[k])); found' == if |members| > 1 then found + [members] else found
    ensures AllGenuine(g, index, stack[..k], found')
  {
    var below := stack[..k];
    forall c | c in found'
      ensures IsReport(g, index, below, c)
    {
      if c in found {
        assert IsReport(g, index, stack, c);
        var n :| Popped(index, stack, n) && n in g.nodes && c == Sorted(g.Component(n));
        assert Popped(index, below, n);
      } else {
        assert stack[k..][0] == stack[k];
        assert Popped(index, below, stack[k]);
      }
    }
  }

  lemma PopCompletes(g: Graph, index: map<string, nat>, stack: seq<string>, k: nat, found: seq<seq<string>>,
      found': seq<seq<string>>)
    requires k < |stack| && AllReported(g, index, stack, found)
    requires forall x :: Popped(index, stack[..k], x) ==> Popped(index, stack, x) || x in stack[k..]
    requires g.Component(stack[k]) == Elements(stack[k..])
    requires forall c :: c in found ==> c in found'
    requires |g.Component(stack[k])| > 1 ==> Sorted(g.Component(stack[k])) in found'
    ensures AllReported(g, index, stack[..k], found')
  {
    forall n | Popped(index, stack[..k], n) && n in g.nodes && |g.Component(n)| > 1
      ensures Sorted(g.Component(n)) in found'
    {
      if n in stack[k..] {
        assert n in g.Component(stack[k]);
        g.SameComponent(stack[k], n);
      } else {
        assert Popped(index, stack, n);
      }
    }
  }

  lemma PopReports(g: Graph, index: map<string, nat>, stack: seq<string>, k: nat, found: seq<seq<string>>,
      found': seq<seq<string>>)
    requires k < |stack| && Reported(g, index, stack, found)
    requires (forall x :: x in stack ==> x in index) && index.Keys <= g.nodes && Distinct(stack)
    requires g.Component(stack[k]) == Elements(stack[k..])
    requires var members := Sorted(g.Component(stack[k])); found' == if |members| > 1 then found + [members] else found
    ensures Reported(g, index, stack[..k], found')
  {
    var members := Sorted(g.Component(stack[k]));
    PoppedAfter(index, stack, k);
    hide Distinct, AllReported, AllGenuine, Popped, Graph.Component, Sorted;
    PopCompletes(g, index, stack, k, found, found');
    PopIsGenuine(g, index, stack, k, found, found');
    NewReport(g, index, stack, k, found);
    DistinctAppend(found, members);
  }

  lemma DistinctAppend<T>(s: seq<T>, x: T)
    requires Distinct(s) && x !in s
    ensures Distinct(s + [x])
  {
  }

  /** `components` lists the strong components larger than one node, each once and sorted, longest first. */
  ghost predicate ComponentsOf(g: Graph, components: seq<seq<string>>)
  {
    && (forall c :: c in components ==> |c| > 1 && exists n :: n in g.nodes && c == Sorted(g.Component(n)))
    && (forall n :: n in g.nodes && |g.Component(n)| > 1 ==> Sorted(g.Component(n)) in components)
    && Distinct(components) && Shrinking(components)
  }

  lemma NothingSearched(g: Graph)
    ensures Search(map[], map[], map[], [], 0, []).Valid(g, Closure(g))
    ensures Reported(g, map[], [], [])
  {
  }

  lemma EverythingReported(g: Graph, s: Search, found: seq<seq<string>>)
    requires s.Valid(g, Closure(g)) && s.work == [] && g.nodes <= s.index.Keys
    requires Reported(g, s.index, s.stack, found)
    ensures ComponentsOf(g, LongestFirst(found))
  {
    StackedNeedsFrame(Closure(g), s.index, s.stack, []);
    LongestFirstIsStable(found, 0);
    var r := LongestFirst(found);
    assert forall c :: c in r <==> c in multiset(r);
    assert forall c :: c in found <==> c in multiset(found);
    DistinctBag(found, r);
    forall c | c in r
      ensures |c| > 1 && exists n :: n in g.nodes && c == Sorted(g.Component(n))
    {
      assert IsReport(g, s.index, s.stack, c);
    }
    assert forall n :: n in g.nodes ==> Popped(s.index, s.stack, n);
  }

  lemma SortedSegment(stack: seq<string>, k: nat, component: seq<string>, scc: set<string>)
    requires k <= |stack| && Distinct(stack)
    requires multiset(component) == multiset(stack[k..]) && scc == Elements(stack[k..])
    ensures SortedBag(multiset(component)) == Sorted(scc) && |component| == |Sorted(scc)|
  {
    DistinctIsSet(stack[k..]);
    DistinctIsSet(Sorted(scc));
    AscendingIsUnique(SortedBag(multiset(component)), Sorted(scc));
    SameSize(component, stack[k..]);
    SameSize(stack[k..], Sorted(scc));
  }

  /** The neighbour loop: the top frame looks at its neighbours until it is done or one has to be entered first. */
  method Scan(adjacency: map<string, set<string>>, nodes: set<string>, s0: Search, ghost found: seq<seq<string>>)
      returns (s: Search, descended: bool)
    requires var g := Graph(adjacency, nodes); s0.Valid(g, Closure(g)) && Reported(g, s0.index, s0.stack, found)
    requires |s0.work| > 0
    ensures var g := Graph(adjacency, nodes); s.Valid(g, Closure(g)) && Reported(g, s.index, s.stack, found)
    ensures s0.index.Keys <= s.index.Keys
    ensures if descended then exists t :: t in nodes && t !in s0.index && t in s.index
      else s.index == s0.index && |s.work| == |s0.work| && s.work[|s.work| - 1].pending == []
  {
    hide Search.Valid, Reported, Extends, Closure, Sorted, Distinct, Ascending, Graph.Component;
    ghost var g := Graph(adjacency, nodes);
    ClosureExtends(g);
    s := s0;
    while |s.work[|s.work| - 1].pending| > 0
      invariant |s.work| == |s0.work| && s.index == s0.index
      invariant s.Valid(g, Closure(g)) && Reported(g, s.index, s.stack, found)
      decreases |s.work[|s.work| - 1].pending|
    {
      Lookups(g, Closure(g), s);
      var Frame(node, pending) := s.work[|s.work| - 1];
      var target := pending[0];
      var work := s.work[..|s.work| - 1] + [Frame(node, pending[1..])];
      if target !in nodes {
        SkipIsValid(g, Closure(g), s, work);
        s := s.(work := work);
        continue;
      }
      if target !in s.index {
        var targets := Sorted(if target in adjacency then adjacency[target] else {});
        assert forall y :: y in g.Targets(target) <==> y in Elements(targets);
        DescendIsValid(g, Closure(g), s, work, targets);
        EnterKeepsReported(g, s.index, s.counter, s.stack, found, target);
        s := Search(s.index[target := s.counter], s.low[target := s.counter], s.onStack[target := true],
          s.stack + [target], s.counter + 1, work + [Frame(target, targets)]);
        return s, true;
      }
      if s.onStack[target] {
        FollowIsValid(g, Closure(g), s, work);
        s := s.(low := s.low[node := Min(s.low[node], s.index[target])], work := work);
      } else {
        SkipIsValid(g, Closure(g), s, work);
        s := s.(work := work);
      }
    }
    descended := false;
  }

  /** The popping loop: everything from `node` up leaves the stack, last in first out. */
  method PopThrough(stack0: seq<string>, onStack0: map<string, bool>, node: string)
      returns (stack: seq<string>, onStack: map<string, bool>, component: seq<string>, ghost k: nat)
    requires node in stack0 && Distinct(stack0) && forall x :: x in stack0 ==> x in onStack0
    ensures k < |stack0| && stack0[k] == node && stack == stack0[..k] && multiset(component) == multiset(stack0[k..])
    ensures onStack.Keys == onStack0.Keys
    ensures forall x :: x in onStack0 ==> onStack[x] == (onStack0[x] && x !in stack0[k..])
  {
    stack, onStack, component := stack0, onStack0, [];
    k := |stack0|;
    while true
      invariant k == |stack| <= |stack0| && stack == stack0[..k] && node in stack
      invariant multiset(component) == multiset(stack0[k..])
      invariant onStack.Keys == onStack0.Keys
      invariant forall x :: x in onStack0 ==> onStack[x] == (onStack0[x] && x !in stack0[k..])
      decreases |stack|
    {
      var member := stack[|stack| - 1];
      k := k - 1;
      assert stack0[k..] == [member] + stack0[k + 1..];
      stack := stack[..|stack| - 1];
      onStack := onStack[member := false];
      component := component + [member];
      if member == node {
        break;
      }
    }
  }

  /** Tarjan's algorithm as the script runs it: an explicit work list of half-consumed neighbour lists. */
  method Cycles(adjacency: map<string, set<string>>, nodes: set<string>) returns (components: seq<seq<string>>)
    ensures ComponentsOf(Graph(adjacency, nodes), components)
  {
    hide Search.Valid, Reported, Extends, Closure, ComponentsOf, LongestFirst, Sorted, SortedBag, Distinct, Ascending,
      Graph.Component;
    ghost var g := Graph(adjacency, nodes);
    ghost var R := Closure(g);
    ClosureExtends(g);
    NothingSearched(g);
    var s := Search(map[], map[], map[], [], 0, []);
    var found: seq<seq<string>> := [];
    var roots := Sorted(nodes);
    for r := 0 to |roots|
      invariant s.Valid(g, R) && Reported(g, s.index, s.stack, found) && s.work == []
      invariant forall i :: 0 <= i < r ==> roots[i] in s.index
    {
      var root := roots[r];
      if root in s.index {
        continue;
      }
      var targets := Sorted(if root in adjacency then adjacency[root] else {});
      assert root in nodes by { assert root in Elements(roots); }
      assert forall y :: y in g.Targets(root) <==> y in Elements(targets);
      StartIsValid(g, R, s, root, targets);
      EnterKeepsReported(g, s.index, s.counter, s.stack, found, root);
      s := Search(s.index[root := s.counter], s.low[root := s.counter], s.onStack[root := true], s.stack + [root],
        s.counter + 1, [] + [Frame(root, targets)]);
      while |s.work| > 0
        invariant s.Valid(g, R) && Reported(g, s.index, s.stack, found)
        invariant forall i :: 0 <= i <= r ==> roots[i] in s.index
        decreases nodes - s.index.Keys, |s.work|
      {
        ghost var before := nodes - s.index.Keys;
        var descended;
        s, descended := Scan(adjacency, nodes, s, found);
        if descended {
          continue;
        }
        Lookups(g, R, s);
        ghost var done := s;
        var node, work, low := s.work[|s.work| - 1].node, s.work[..|s.work| - 1], s.low;
        if |work| > 0 {
          var parent := work[|work| - 1].node;
          assert parent == s.work[|s.work| - 2].node;
          low := low[parent := Min(low[parent], low[node])];
        }
        if low[node] == s.index[node] {
          if |work| > 0 {
            RootLowIsHarmless(g, R, s);
          }
          assert low == s.low;
          var stack, onStack, component;
          ghost var k;
          stack, onStack, component, k := PopThrough(s.stack, s.onStack, node);
          PopIsValid(g, s, k, onStack);
          SortedSegment(s.stack, k, component, g.Component(node));
          var found' := if |component| > 1 then found + [SortedBag(multiset(component))] else found;
          PopReports(g, s.index, s.stack, k, found, found');
          found := found';
          s := s.(stack := stack, onStack := onStack, low := low, work := work);
        } else {
          RetireIsValid(g, R, s);
          s := s.(low := low, work := work);
        }
      }
    }
    assert forall n :: n in nodes ==> n in Elements(roots);
    EverythingReported(g, s, found);
    components := LongestFirst(found);
  }
}
