/** The invariant of the iterative depth-first search behind `cycles`, and why every step keeps it.

    `R` stands throughout for the reachability of the graph, as a set of pairs. */
module Tarjan {
  import opened Order
  import opened Digraph

  type Relation = set<(string, string)>

  /** One entry of the work list: a node and the neighbours it has still to look at. */
  datatype Frame = Frame(node: string, pending: seq<string>)

  function Trail(work: seq<Frame>): (trail: seq<string>)
    ensures |trail| == |work| && forall i :: 0 <= i < |work| ==> trail[i] == work[i].node
  {
    seq(|work|, i requires 0 <= i < |work| => work[i].node)
  }

  function Min(a: nat, b: nat): nat
  {
    if a <= b then a else b
  }

  ghost predicate Extends(g: Graph, R: Relation)
  {
    && (forall u :: u in g.nodes ==> (u, u) in R)
    && (forall u, v :: g.Edge(u, v) ==> (u, v) in R)
    && Transitive(R)
  }

  predicate Composes(R: Relation, u: string, v: string, w: string)
  {
    (u, v) in R && (v, w) in R ==> (u, w) in R
  }

  ghost predicate Transitive(R: Relation)
  {
    forall u, v, w :: Composes(R, u, v, w)
  }

  // The clauses of the invariant.

  /** Discovery numbers are distinct and rise along the stack. */
  ghost predicate Numbered(nodes: set<string>, index: map<string, nat>, counter: nat, stack: seq<string>)
  {
    && index.Keys <= nodes
    && (forall x :: x in index ==> index[x] < counter)
    && (forall x, y :: x in index && y in index && index[x] == index[y] ==> x == y)
    && (forall x :: x in stack ==> x in index)
    && (forall i, j :: 0 <= i < j < |stack| ==> index[stack[i]] < index[stack[j]])
  }

  /** `on_stack` says of every discovered node whether it is stacked. */
  ghost predicate Marked(index: map<string, nat>, onStack: map<string, bool>, stack: seq<string>)
  {
    onStack.Keys == index.Keys && forall x :: x in index ==> (onStack[x] <==> x in stack)
  }

  predicate Popped(index: map<string, nat>, stack: seq<string>, x: string)
  {
    x in index && x !in stack
  }

  /** The work list is a rising selection of the stack. */
  ghost predicate Framed(index: map<string, nat>, stack: seq<string>, trail: seq<string>)
  {
    && (forall i :: 0 <= i < |trail| ==> trail[i] in stack && trail[i] in index)
    && (forall i, j :: 0 <= i < j < |trail| ==> index[trail[i]] < index[trail[j]])
  }

  /** No edge leaves the components already reported. */
  ghost predicate PoppedClosed(g: Graph, index: map<string, nat>, stack: seq<string>)
  {
    forall x, y :: Popped(index, stack, x) && g.Edge(x, y) ==> Popped(index, stack, y)
  }

  /** A frame reaches everything stacked above it. */
  ghost predicate Downward(R: Relation, index: map<string, nat>, stack: seq<string>, trail: seq<string>)
  {
    forall i, x :: 0 <= i < |trail| && x in stack && x in index && trail[i] in index && index[trail[i]] <= index[x]
      ==> (trail[i], x) in R
  }

  predicate Climbs(R: Relation, index: map<string, nat>, x: string, f: string)
  {
    x in index && f in index && index[f] <= index[x] && (x, f) in R
  }

  predicate Grounded(R: Relation, index: map<string, nat>, trail: seq<string>, x: string)
  {
    exists i :: 0 <= i < |trail| && Climbs(R, index, x, trail[i])
  }

  /** Everything stacked reaches some frame below it. */
  ghost predicate Upward(R: Relation, index: map<string, nat>, stack: seq<string>, trail: seq<string>)
  {
    forall x {:trigger Grounded(R, index, trail, x)} :: x in stack ==> Grounded(R, index, trail, x)
  }

  predicate Witness(R: Relation, index: map<string, nat>, stack: seq<string>, f: string, lowest: nat, y: string)
  {
    y in stack && y in index && index[y] == lowest && (f, y) in R
  }

  ghost predicate Lowest(R: Relation, index: map<string, nat>, low: map<string, nat>, stack: seq<string>, f: string)
  {
    f in low && f in index && low[f] <= index[f] && exists y :: Witness(R, index, stack, f, low[f], y)
  }

  /** `low` of a frame is the number of something stacked that the frame reaches. */
  ghost predicate LowReached(R: Relation, index: map<string, nat>, low: map<string, nat>, stack: seq<string>,
      trail: seq<string>)
  {
    forall i :: 0 <= i < |trail| ==> Lowest(R, index, low, stack, trail[i])
  }

  /** A frame owes its pending neighbours; everything else on the stack owes nothing. */
  ghost predicate Explored(g: Graph, index: map<string, nat>, stack: seq<string>, work: seq<Frame>)
  {
    && (forall x, y :: x in stack && x !in Trail(work) && g.Edge(x, y) ==> y in index)
    && (forall i, y :: 0 <= i < |work| && g.Edge(work[i].node, y) ==> y in index || y in work[i].pending)
  }

  /** `x` lies in the stretch of the stack that frame `i` opened and no later frame took over. */
  predicate InSegment(index: map<string, nat>, trail: seq<string>, i: nat, x: string)
    requires i < |trail|
  {
    && x in index && trail[i] in index && index[trail[i]] <= index[x]
    && (i + 1 < |trail| ==> trail[i + 1] in index && index[x] < index[trail[i + 1]])
  }

  predicate Bounds(index: map<string, nat>, low: map<string, nat>, f: string, y: string)
  {
    y in index && f in low && low[f] <= index[y]
  }

  ghost predicate Bounded(g: Graph, index: map<string, nat>, low: map<string, nat>, stack: seq<string>,
      work: seq<Frame>, i: nat)
    requires i < |work|
  {
    forall x, y :: InSegment(index, Trail(work), i, x) && x in stack && y in stack && g.Edge(x, y)
      && (x == work[i].node ==> y !in work[i].pending)
      ==> Bounds(index, low, work[i].node, y)
  }

  /** `low` of a frame bounds every edge already followed from its segment. */
  ghost predicate LowBounds(g: Graph, index: map<string, nat>, low: map<string, nat>, stack: seq<string>,
      work: seq<Frame>)
  {
    forall i :: 0 <= i < |work| ==> Bounded(g, index, low, stack, work, i)
  }

  /** A frame owes only targets of its own node. */
  ghost predicate Owed(g: Graph, work: seq<Frame>)
  {
    forall i, y :: 0 <= i < |work| && y in work[i].pending ==> y in g.Targets(work[i].node)
  }

  /** The local variables of `cycles`, as one value. */
  datatype Search = Search(
    index: map<string, nat>,
    low: map<string, nat>,
    onStack: map<string, bool>,
    stack: seq<string>,
    counter: nat,
    work: seq<Frame>)
  {
    ghost predicate Valid(g: Graph, R: Relation)
    {
      && Numbered(g.nodes, index, counter, stack)
      && Marked(index, onStack, stack)
      && Framed(index, stack, Trail(work))
      && PoppedClosed(g, index, stack)
      && Downward(R, index, stack, Trail(work))
      && Upward(R, index, stack, Trail(work))
      && LowReached(R, index, low, stack, Trail(work))
      && Explored(g, index, stack, work)
      && LowBounds(g, index, low, stack, work)
      && low.Keys == index.Keys
      && Owed(g, work)
    }
  }

  // Entering a node.

  lemma EnterNumbered(nodes: set<string>, index: map<string, nat>, counter: nat, stack: seq<string>, n: string)
    requires Numbered(nodes, index, counter, stack) && n in nodes && n !in index
    ensures Numbered(nodes, index[n := counter], counter + 1, stack + [n])
  {
  }

  lemma EnterMarked(index: map<string, nat>, onStack: map<string, bool>, counter: nat, stack: seq<string>, n: string)
    requires Marked(index, onStack, stack)
    ensures Marked(index[n := counter], onStack[n := true], stack + [n])
  {
  }

  lemma EnterFramed(nodes: set<string>, index: map<string, nat>, counter: nat, stack: seq<string>, trail: seq<string>,
      n: string)
    requires Framed(index, stack, trail) && n !in index && Numbered(nodes, index, counter, stack)
    ensures Framed(index[n := counter], stack + [n], trail + [n])
  {
  }

  lemma EnterPoppedClosed(g: Graph, index: map<string, nat>, counter: nat, stack: seq<string>, n: string)
    requires PoppedClosed(g, index, stack) && n !in index
    ensures PoppedClosed(g, index[n := counter], stack + [n])
  {
    var index', stack' := index[n := counter], stack + [n];
    forall x, y | Popped(index', stack', x) && g.Edge(x, y)
      ensures Popped(index', stack', y)
    {
      assert Popped(index, stack, x);
      assert Popped(index, stack, y);
    }
  }

  lemma EnterDownward(nodes: set<string>, R: Relation, index: map<string, nat>, counter: nat, stack: seq<string>,
      trail: seq<string>, n: string)
    requires Downward(R, index, stack, trail) && Framed(index, stack, trail)
    requires n !in index && Numbered(nodes, index, counter, stack)
    requires (n, n) in R && (|trail| > 0 ==> (trail[|trail| - 1], n) in R)
    requires Transitive(R)
    ensures Downward(R, index[n := counter], stack + [n], trail + [n])
  {
    forall i | 0 <= i < |trail|
      ensures (trail[i], n) in R
    {
      var top := trail[|trail| - 1];
      assert index[trail[i]] <= index[top];
      assert Composes(R, trail[i], top, n);
    }
  }

  lemma EnterUpward(R: Relation, index: map<string, nat>, counter: nat, stack: seq<string>, trail: seq<string>,
      n: string)
    requires Upward(R, index, stack, trail) && (n, n) in R && n !in index
    ensures Upward(R, index[n := counter], stack + [n], trail + [n])
  {
    var index', trail' := index[n := counter], trail + [n];
    forall x | x in stack + [n]
      ensures Grounded(R, index', trail', x)
    {
      if x in stack {
        assert Grounded(R, index, trail, x);
        var i :| 0 <= i < |trail| && Climbs(R, index, x, trail[i]);
        assert Climbs(R, index', x, trail'[i]);
      } else {
        assert Climbs(R, index', n, trail'[|trail|]);
      }
    }
  }

  lemma EnterLowReached(R: Relation, index: map<string, nat>, low: map<string, nat>, counter: nat, stack: seq<string>,
      trail: seq<string>, n: string)
    requires LowReached(R, index, low, stack, trail) && (n, n) in R && n !in index
    ensures LowReached(R, index[n := counter], low[n := counter], stack + [n], trail + [n])
  {
    var index', low', trail' := index[n := counter], low[n := counter], trail + [n];
    forall i | 0 <= i < |trail'|
      ensures Lowest(R, index', low', stack + [n], trail'[i])
    {
      if i < |trail| {
        assert Lowest(R, index, low, stack, trail[i]);
        var y :| Witness(R, index, stack, trail[i], low[trail[i]], y);
        assert Witness(R, index', stack + [n], trail'[i], low'[trail'[i]], y);
      } else {
        assert Witness(R, index', stack + [n], n, counter, n);
      }
    }
  }

  /** `work'` is `work` with the top frame's next neighbour taken off. */
  ghost predicate TookNext(work: seq<Frame>, work': seq<Frame>)
  {
    && |work'| == |work| > 0 && work'[..|work| - 1] == work[..|work| - 1]
    && var top, top' := work[|work| - 1], work'[|work| - 1];
       top'.node == top.node && |top.pending| > 0 && top'.pending == top.pending[1..]
  }

  lemma TookNextTrail(work: seq<Frame>, work': seq<Frame>)
    requires TookNext(work, work')
    ensures Trail(work') == Trail(work)
    ensures forall i :: 0 <= i < |work| - 1 ==> work'[i] == work[i]
    ensures var was, now := work[|work| - 1].pending, work'[|work| - 1].pending;
      forall y :: y in was ==> y == was[0] || y in now
  {
    forall i | 0 <= i < |work|
      ensures work'[i].node == work[i].node && (i < |work| - 1 ==> work'[i] == work[i])
    {
      if i < |work| - 1 {
        assert work'[i] == work'[..|work| - 1][i];
      }
    }
    assert Trail(work') == Trail(work);
  }

  lemma TakeNextExplored(g: Graph, index: map<string, nat>, stack: seq<string>, work: seq<Frame>, work': seq<Frame>)
    requires Explored(g, index, stack, work) && TookNext(work, work')
    requires var t := work[|work| - 1].pending[0]; t !in g.nodes || t in index
    ensures Explored(g, index, stack, work')
  {
    TookNextTrail(work, work');
  }

  lemma TakeNextOwed(g: Graph, work: seq<Frame>, work': seq<Frame>)
    requires Owed(g, work) && TookNext(work, work')
    ensures Owed(g, work')
  {
    TookNextTrail(work, work');
  }

  lemma EnterExplored(g: Graph, index: map<string, nat>, counter: nat, stack: seq<string>, work: seq<Frame>, n: string,
      targets: seq<string>)
    requires Explored(g, index, stack, work)
    requires forall y :: y in g.Targets(n) <==> y in targets
    ensures Explored(g, index[n := counter], stack + [n], work + [Frame(n, targets)])
  {
    var work' := work + [Frame(n, targets)];
    assert Trail(work') == Trail(work) + [n];
  }

  lemma DescendExplored(g: Graph, index: map<string, nat>, counter: nat, stack: seq<string>, work: seq<Frame>,
      work': seq<Frame>, targets: seq<string>)
    requires Explored(g, index, stack, work) && TookNext(work, work')
    requires var t := work[|work| - 1].pending[0]; forall y :: y in g.Targets(t) <==> y in targets
    ensures var t := work[|work| - 1].pending[0];
      Explored(g, index[t := counter], stack + [t], work' + [Frame(t, targets)])
  {
    var t := work[|work| - 1].pending[0];
    TookNextTrail(work, work');
    assert Explored(g, index[t := counter], stack, work');
    EnterExplored(g, index[t := counter], counter, stack, work', t, targets);
    assert index[t := counter][t := counter] == index[t := counter];
  }

  lemma TakeNextLowBounds(g: Graph, index: map<string, nat>, low: map<string, nat>, stack: seq<string>,
      work: seq<Frame>, work': seq<Frame>)
    requires LowBounds(g, index, low, stack, work) && TookNext(work, work')
    requires var t := work[|work| - 1].pending[0];
      t !in g.nodes || t !in stack
        || (t in index && work[|work| - 1].node in low && low[work[|work| - 1].node] <= index[t])
    ensures LowBounds(g, index, low, stack, work')
  {
    TookNextTrail(work, work');
    forall i | 0 <= i < |work|
      ensures Bounded(g, index, low, stack, work', i)
    {
      assert Bounded(g, index, low, stack, work, i);
    }
  }

  lemma EnterLowBounds(g: Graph, R: Relation, index: map<string, nat>, low: map<string, nat>, counter: nat,
      stack: seq<string>, work: seq<Frame>, n: string, targets: seq<string>)
    requires LowBounds(g, index, low, stack, work) && n !in index
    requires Numbered(g.nodes, index, counter, stack) && LowReached(R, index, low, stack, Trail(work))
    requires forall y :: y in g.Targets(n) <==> y in targets
    ensures LowBounds(g, index[n := counter], low[n := counter], stack + [n], work + [Frame(n, targets)])
  {
    var index', low', stack', work' := index[n := counter], low[n := counter], stack + [n], work + [Frame(n, targets)];
    forall i | 0 <= i < |work'|
      ensures Bounded(g, index', low', stack', work', i)
    {
      if i < |work| {
        assert Bounded(g, index, low, stack, work, i) && Lowest(R, index, low, stack, Trail(work)[i]);
        assert i + 1 < |work| ==> Lowest(R, index, low, stack, Trail(work)[i + 1]);
        EnterBounded(g, index, low, counter, stack, work, n, targets, i);
      }
    }
  }

  lemma EnterBounded(g: Graph, index: map<string, nat>, low: map<string, nat>, counter: nat, stack: seq<string>,
      work: seq<Frame>, n: string, targets: seq<string>, i: nat)
    requires i < |work| && Bounded(g, index, low, stack, work, i) && n !in index
    requires Numbered(g.nodes, index, counter, stack)
    requires work[i].node in low && work[i].node in index && low[work[i].node] <= index[work[i].node]
    requires i + 1 < |work| ==> work[i + 1].node in index
    ensures Bounded(g, index[n := counter], low[n := counter], stack + [n], work + [Frame(n, targets)], i)
  {
    var index', low', stack', work' := index[n := counter], low[n := counter], stack + [n], work + [Frame(n, targets)];
    var f := work[i].node;
    forall x, y | InSegment(index', Trail(work'), i, x) && x in stack' && y in stack' && g.Edge(x, y)
        && (x == work'[i].node ==> y !in work'[i].pending)
      ensures Bounds(index', low', f, y)
    {
      EnterSegment(index, counter, work, n, targets, i, x);
      if y in stack {
        assert x in stack ==> Bounds(index, low, f, y);
      }
    }
  }

  lemma EnterSegment(index: map<string, nat>, counter: nat, work: seq<Frame>, n: string, targets: seq<string>, i: nat,
      x: string)
    requires i < |work| && work[i].node in index && n !in index
    requires i + 1 < |work| ==> work[i + 1].node in index
    requires forall z :: z in index ==> index[z] < counter
    requires InSegment(index[n := counter], Trail(work + [Frame(n, targets)]), i, x)
    ensures x != n && InSegment(index, Trail(work), i, x)
  {
    var trail' := Trail(work + [Frame(n, targets)]);
    assert trail' == Trail(work) + [n];
  }

  // Following an edge to something still stacked.

  lemma FollowLowReached(R: Relation, index: map<string, nat>, low: map<string, nat>, stack: seq<string>,
      trail: seq<string>, t: string)
    requires LowReached(R, index, low, stack, trail) && |trail| > 0
    requires Framed(index, stack, trail)
    requires t in stack && t in index && (trail[|trail| - 1], t) in R
    ensures var n := trail[|trail| - 1]; LowReached(R, index, low[n := Min(low[n], index[t])], stack, trail)
  {
    var n := trail[|trail| - 1];
    var low' := low[n := Min(low[n], index[t])];
    forall i | 0 <= i < |trail|
      ensures Lowest(R, index, low', stack, trail[i])
    {
      assert Lowest(R, index, low, stack, trail[i]);
      var y :| Witness(R, index, stack, trail[i], low[trail[i]], y);
      if trail[i] == n && index[t] < low[n] {
        assert Witness(R, index, stack, n, low'[n], t);
      } else {
        assert Witness(R, index, stack, trail[i], low'[trail[i]], y);
      }
    }
  }

  /** Lowering one frame's `low` keeps every bound. */
  lemma LowerLowBounds(g: Graph, index: map<string, nat>, low: map<string, nat>, stack: seq<string>, work: seq<Frame>,
      n: string, value: nat)
    requires LowBounds(g, index, low, stack, work)
    requires n in low && value <= low[n]
    ensures LowBounds(g, index, low[n := value], stack, work)
  {
    var low' := low[n := value];
    forall i | 0 <= i < |work|
      ensures Bounded(g, index, low', stack, work, i)
    {
      assert Bounded(g, index, low, stack, work, i);
    }
  }

  // Leaving a node.

  lemma ReleaseFrame(R: Relation, index: map<string, nat>, stack: seq<string>, work: seq<Frame>)
    requires |work| > 0
    requires Framed(index, stack, Trail(work)) && Downward(R, index, stack, Trail(work))
    ensures Trail(work[..|work| - 1]) == Trail(work)[..|work| - 1]
    ensures Framed(index, stack, Trail(work[..|work| - 1])) && Downward(R, index, stack, Trail(work[..|work| - 1]))
  {
    assert Trail(work[..|work| - 1]) == Trail(work)[..|work| - 1];
  }

  lemma LowestClimbs(R: Relation, index: map<string, nat>, low: map<string, nat>, stack: seq<string>,
      trail: seq<string>)
      returns (j: nat)
    requires |trail| > 0 && Upward(R, index, stack, trail) && LowReached(R, index, low, stack, trail)
    requires Framed(index, stack, trail)
    requires var n := trail[|trail| - 1]; n in low && n in index && low[n] != index[n]
    requires Transitive(R)
    ensures j < |trail| - 1 && index[trail[j]] < index[trail[|trail| - 1]] && (trail[|trail| - 1], trail[j]) in R
  {
    var n := trail[|trail| - 1];
    var y :| Witness(R, index, stack, n, low[n], y);
    assert Grounded(R, index, trail, y);
    j :| 0 <= j < |trail| && Climbs(R, index, y, trail[j]);
    assert Composes(R, n, y, trail[j]);
  }

  lemma FrameReachesNext(R: Relation, index: map<string, nat>, stack: seq<string>, trail: seq<string>)
    requires |trail| > 1 && Framed(index, stack, trail) && Downward(R, index, stack, trail)
    ensures (trail[|trail| - 2], trail[|trail| - 1]) in R
  {
    assert index[trail[|trail| - 2]] < index[trail[|trail| - 1]];
  }

  lemma RetireUpward(R: Relation, index: map<string, nat>, low: map<string, nat>, stack: seq<string>,
      trail: seq<string>)
    requires |trail| > 0 && Upward(R, index, stack, trail) && LowReached(R, index, low, stack, trail)
    requires Framed(index, stack, trail)
    requires var n := trail[|trail| - 1]; n in low && n in index && low[n] != index[n]
    requires Transitive(R)
    ensures |trail| > 1
    ensures Upward(R, index, stack, trail[..|trail| - 1])
  {
    var j := LowestClimbs(R, index, low, stack, trail);
    var trail' := trail[..|trail| - 1];
    forall x | x in stack
      ensures Grounded(R, index, trail', x)
    {
      assert Grounded(R, index, trail, x);
      var i :| 0 <= i < |trail| && Climbs(R, index, x, trail[i]);
      if i < |trail'| {
        assert Climbs(R, index, x, trail'[i]);
      } else {
        assert Composes(R, x, trail[i], trail[j]);
        assert Climbs(R, index, x, trail'[j]);
      }
    }
  }

  lemma RetireLowReached(R: Relation, index: map<string, nat>, low: map<string, nat>, stack: seq<string>,
      trail: seq<string>)
    requires |trail| > 1 && LowReached(R, index, low, stack, trail) && Framed(index, stack, trail)
    requires (trail[|trail| - 2], trail[|trail| - 1]) in R
    requires Transitive(R)
    ensures var p, n := trail[|trail| - 2], trail[|trail| - 1];
      LowReached(R, index, low[p := Min(low[p], low[n])], stack, trail[..|trail| - 1])
  {
    var p, n := trail[|trail| - 2], trail[|trail| - 1];
    var low', trail' := low[p := Min(low[p], low[n])], trail[..|trail| - 1];
    forall i | 0 <= i < |trail'|
      ensures Lowest(R, index, low', stack, trail'[i])
    {
      assert Lowest(R, index, low, stack, trail[i]) && Lowest(R, index, low, stack, n);
      var y :| Witness(R, index, stack, trail[i], low[trail[i]], y);
      var z :| Witness(R, index, stack, n, low[n], z);
      if trail[i] == p && low[n] < low[p] {
        assert Composes(R, p, n, z);
        assert Witness(R, index, stack, p, low'[p], z);
      } else {
        assert Witness(R, index, stack, trail[i], low'[trail[i]], y);
      }
    }
  }

  lemma RetireExplored(g: Graph, index: map<string, nat>, stack: seq<string>, work: seq<Frame>)
    requires |work| > 0 && work[|work| - 1].pending == [] && Explored(g, index, stack, work)
    ensures Explored(g, index, stack, work[..|work| - 1])
  {
    var work' := work[..|work| - 1];
    assert Trail(work) == Trail(work') + [work[|work| - 1].node];
  }

  lemma LastFrames(R: Relation, index: map<string, nat>, low: map<string, nat>, stack: seq<string>, work: seq<Frame>)
    requires |work| > 1 && LowReached(R, index, low, stack, Trail(work))
    ensures work[|work| - 2].node in low && work[|work| - 1].node in low && work[|work| - 1].node in index
  {
    assert Trail(work)[|work| - 2] in low && Trail(work)[|work| - 1] in low;
  }

  lemma RetireLowBounds(g: Graph, index: map<string, nat>, low: map<string, nat>, stack: seq<string>, work: seq<Frame>)
    requires |work| > 1 && work[|work| - 1].pending == []
    requires LowBounds(g, index, low, stack, work)
    requires work[|work| - 2].node in low && work[|work| - 1].node in low && work[|work| - 1].node in index
    ensures var p, n := work[|work| - 2].node, work[|work| - 1].node;
      LowBounds(g, index, low[p := Min(low[p], low[n])], stack, work[..|work| - 1])
  {
    var p, n := work[|work| - 2].node, work[|work| - 1].node;
    var low', work' := low[p := Min(low[p], low[n])], work[..|work| - 1];
    forall i | 0 <= i < |work'|
      ensures Bounded(g, index, low', stack, work', i)
    {
      assert Bounded(g, index, low, stack, work, i);
      if i + 1 == |work'| {
        assert Bounded(g, index, low, stack, work, i + 1);
        MergeBounded(g, index, low, stack, work, low');
      } else {
        assert work'[i] == work[i] && work'[i + 1] == work[i + 1];
      }
    }
  }

  /** The last two segments joined: either frame's `low` is at least the smaller of the two. */
  lemma MergeBounded(g: Graph, index: map<string, nat>, low: map<string, nat>, stack: seq<string>, work: seq<Frame>,
      low': map<string, nat>)
    requires |work| > 1 && work[|work| - 1].pending == []
    requires work[|work| - 1].node in index
    requires var p, n := work[|work| - 2].node, work[|work| - 1].node;
      p in low && n in low && low' == low[p := Min(low[p], low[n])]
    requires Bounded(g, index, low, stack, work, |work| - 2) && Bounded(g, index, low, stack, work, |work| - 1)
    ensures Bounded(g, index, low', stack, work[..|work| - 1], |work| - 2)
  {
    var p, n, work' := work[|work| - 2].node, work[|work| - 1].node, work[..|work| - 1];
    var i := |work| - 2;
    forall x, y | InSegment(index, Trail(work'), i, x) && x in stack && y in stack && g.Edge(x, y)
        && (x == p ==> y !in work[i].pending)
      ensures Bounds(index, low', p, y)
    {
      if index[x] >= index[n] {
        assert InSegment(index, Trail(work), i + 1, x);
        assert Bounds(index, low, n, y);
      } else {
        assert InSegment(index, Trail(work), i, x);
        assert Bounds(index, low, p, y);
      }
    }
  }

  // Popping the component of a finished root at position `k` of the stack.

  lemma RootIsTopSegment(index: map<string, nat>, stack: seq<string>, k: nat, counter: nat, nodes: set<string>)
    requires Numbered(nodes, index, counter, stack) && k < |stack|
    ensures forall x :: x in index ==> (x in stack[..k] <==> x in stack && index[x] < index[stack[k]])
    ensures forall x :: x in index ==> (x in stack[k..] <==> x in stack && index[x] >= index[stack[k]])
    ensures Below(index, stack, stack[..k], stack[k])
  {
    forall x | x in stack
      ensures x in stack[..k] <==> index[x] < index[stack[k]]
      ensures x in stack[k..] <==> index[x] >= index[stack[k]]
    {
      var i :| 0 <= i < |stack| && stack[i] == x;
      if i < k {
        assert stack[..k][i] == x;
      } else {
        assert stack[k..][i - k] == x;
      }
    }
  }

  lemma PopFramed(R: Relation, index: map<string, nat>, stack: seq<string>, trail: seq<string>, k: nat)
    requires |trail| > 0 && Framed(index, stack, trail) && k < |stack| && stack[k] == trail[|trail| - 1]
    requires forall x :: x in index ==> (x in stack[..k] <==> x in stack && index[x] < index[stack[k]])
    requires Downward(R, index, stack, trail)
    ensures Framed(index, stack[..k], trail[..|trail| - 1]) && Downward(R, index, stack[..k], trail[..|trail| - 1])
  {
  }

  lemma PopPoppedClosed(g: Graph, index: map<string, nat>, low: map<string, nat>, counter: nat, stack: seq<string>,
      work: seq<Frame>, k: nat)
    requires |work| > 0 && work[|work| - 1].pending == []
    requires k < |stack| && stack[k] == work[|work| - 1].node
    requires Framed(index, stack, Trail(work)) && Numbered(g.nodes, index, counter, stack)
    requires forall x :: x in index ==> (x in stack[..k] <==> x in stack && index[x] < index[stack[k]])
    requires PoppedClosed(g, index, stack) && Explored(g, index, stack, work) && LowBounds(g, index, low, stack, work)
    requires stack[k] in low && low[stack[k]] == index[stack[k]]
    ensures PoppedClosed(g, index, stack[..k])
  {
    var top, n := |work| - 1, stack[k];
    forall x, y | Popped(index, stack[..k], x) && g.Edge(x, y)
      ensures Popped(index, stack[..k], y)
    {
      if Popped(index, stack, x) {
        assert Popped(index, stack, y);
      } else {
        if x in Trail(work) {
          var i :| 0 <= i < |work| && Trail(work)[i] == x;
          assert i == top;
          assert g.Edge(work[top].node, y);
        }
        assert y in index;
        assert Bounded(g, index, low, stack, work, top) && InSegment(index, Trail(work), top, x);
      }
    }
  }

  lemma PopUpward(nodes: set<string>, counter: nat, R: Relation, index: map<string, nat>, stack: seq<string>,
      trail: seq<string>, k: nat)
    requires |trail| > 0 && Upward(R, index, stack, trail) && k < |stack| && stack[k] == trail[|trail| - 1]
    requires Numbered(nodes, index, counter, stack)
    requires forall x :: x in index ==> (x in stack[..k] <==> x in stack && index[x] < index[stack[k]])
    ensures Upward(R, index, stack[..k], trail[..|trail| - 1])
  {
    var trail' := trail[..|trail| - 1];
    forall x | x in stack[..k]
      ensures Grounded(R, index, trail', x)
    {
      assert Grounded(R, index, trail, x);
      var i :| 0 <= i < |trail| && Climbs(R, index, x, trail[i]);
      assert Climbs(R, index, x, trail'[i]);
    }
  }

  lemma PopMarked(index: map<string, nat>, counter: nat, nodes: set<string>, onStack: map<string, bool>,
      onStack': map<string, bool>, stack: seq<string>, k: nat)
    requires Marked(index, onStack, stack) && Numbered(nodes, index, counter, stack) && k < |stack|
    requires onStack'.Keys == onStack.Keys
    requires forall x :: x in onStack ==> onStack'[x] == (onStack[x] && x !in stack[k..])
    ensures Marked(index, onStack', stack[..k])
    ensures Numbered(nodes, index, counter, stack[..k])
  {
    RootIsTopSegment(index, stack, k, counter, nodes);
  }

  lemma PopLowReached(R: Relation, index: map<string, nat>, low: map<string, nat>, stack: seq<string>,
      trail: seq<string>, k: nat)
    requires |trail| > 0 && LowReached(R, index, low, stack, trail) && Framed(index, stack, trail)
    requires k < |stack| && stack[k] == trail[|trail| - 1]
    requires forall x :: x in index ==> (x in stack[..k] <==> x in stack && index[x] < index[stack[k]])
    ensures LowReached(R, index, low, stack[..k], trail[..|trail| - 1])
  {
    var trail' := trail[..|trail| - 1];
    forall i | 0 <= i < |trail'|
      ensures Lowest(R, index, low, stack[..k], trail'[i])
    {
      assert Lowest(R, index, low, stack, trail[i]);
      var y :| Witness(R, index, stack, trail[i], low[trail[i]], y);
      assert Witness(R, index, stack[..k], trail'[i], low[trail'[i]], y);
    }
  }

  lemma PopExplored(g: Graph, index: map<string, nat>, counter: nat, stack: seq<string>, work: seq<Frame>, k: nat)
    requires |work| > 0 && k < |stack| && Explored(g, index, stack, work) && stack[k] == work[|work| - 1].node
    requires Numbered(g.nodes, index, counter, stack)
    ensures Explored(g, index, stack[..k], work[..|work| - 1])
  {
    assert Trail(work) == Trail(work[..|work| - 1]) + [stack[k]];
  }

  /** `below` is what the stack holds under `n`. */
  ghost predicate Below(index: map<string, nat>, stack: seq<string>, below: seq<string>, n: string)
  {
    n in index && forall x :: x in below ==> x in stack && x in index && index[x] < index[n]
  }

  lemma PopLowBounds(g: Graph, index: map<string, nat>, low: map<string, nat>, stack: seq<string>, work: seq<Frame>,
      below: seq<string>)
    requires |work| > 0 && LowBounds(g, index, low, stack, work)
    requires Below(index, stack, below, work[|work| - 1].node)
    ensures LowBounds(g, index, low, below, work[..|work| - 1])
  {
    var work' := work[..|work| - 1];
    forall i | 0 <= i < |work'|
      ensures Bounded(g, index, low, below, work', i)
    {
      assert Bounded(g, index, low, stack, work, i);
      assert work'[i] == work[i];
      assert i + 1 < |work'| ==> work'[i + 1] == work[i + 1];
    }
  }

  /** Everything at or above a finished root on the stack is mutually reachable with it. */
  lemma SegmentIsMutual(R: Relation, index: map<string, nat>, stack: seq<string>, trail: seq<string>, k: nat, x: string)
    requires |trail| > 0 && k < |stack| && stack[k] == trail[|trail| - 1]
    requires Framed(index, stack, trail) && Downward(R, index, stack, trail) && Upward(R, index, stack, trail)
    requires Transitive(R) && x in stack && x in index && index[x] >= index[stack[k]]
    ensures (stack[k], x) in R && (x, stack[k]) in R
  {
    assert Grounded(R, index, trail, x);
    var i :| 0 <= i < |trail| && Climbs(R, index, x, trail[i]);
    assert index[trail[i]] <= index[stack[k]];
    assert Composes(R, x, trail[i], stack[k]);
  }

  // Whole steps of the search.

  ghost function Closure(g: Graph): Relation
  {
    set u, v | u in g.nodes && v in g.nodes && g.Reach(u, v) :: (u, v)
  }

  lemma ClosureExtends(g: Graph)
    ensures Extends(g, Closure(g))
  {
    var R := Closure(g);
    forall u | u in g.nodes ensures (u, u) in R { g.ReachSelf(u); }
    forall u, v | g.Edge(u, v) ensures (u, v) in R { g.ReachEdge(u, v); }
    forall u, v, w ensures Composes(R, u, v, w)
    {
      if (u, v) in R && (v, w) in R { g.ReachTrans(u, v, w); }
    }
  }

  /** Only a search with frames has anything stacked. */
  lemma StackedNeedsFrame(R: Relation, index: map<string, nat>, stack: seq<string>, trail: seq<string>)
    requires Upward(R, index, stack, trail)
    ensures stack == [] || |trail| > 0
  {
    if stack != [] {
      assert Grounded(R, index, trail, stack[0]);
    }
  }

  /** The search after `n` is entered on top of the frames `work`. */
  function Enter(s: Search, work: seq<Frame>, n: string, targets: seq<string>): Search
  {
    Search(s.index[n := s.counter], s.low[n := s.counter], s.onStack[n := true], s.stack + [n], s.counter + 1,
      work + [Frame(n, targets)])
  }

  /** Everything but the neighbours owed, when `n` is entered on top of the frames `work`. */
  lemma EnterIsValid(g: Graph, R: Relation, s: Search, work: seq<Frame>, n: string, targets: seq<string>)
    requires s.Valid(g, R) && Extends(g, R)
    requires n in g.nodes && n !in s.index
    requires Trail(work) == Trail(s.work) && LowBounds(g, s.index, s.low, s.stack, work)
    requires |work| > 0 ==> g.Edge(work[|work| - 1].node, n)
    requires forall y :: y in g.Targets(n) <==> y in targets
    requires Explored(g, s.index[n := s.counter], s.stack + [n], work + [Frame(n, targets)]) && Owed(g, work)
    ensures Enter(s, work, n, targets).Valid(g, R)
  {
    hide Numbered, Framed, PoppedClosed, Downward, Upward, LowReached, Explored, LowBounds;
    var trail := Trail(work);
    assert Trail(work + [Frame(n, targets)]) == trail + [n];
    EnterNumbered(g.nodes, s.index, s.counter, s.stack, n);
    EnterFramed(g.nodes, s.index, s.counter, s.stack, trail, n);
    EnterPoppedClosed(g, s.index, s.counter, s.stack, n);
    EnterDownward(g.nodes, R, s.index, s.counter, s.stack, trail, n);
    EnterUpward(R, s.index, s.counter, s.stack, trail, n);
    EnterLowReached(R, s.index, s.low, s.counter, s.stack, trail, n);
    EnterLowBounds(g, R, s.index, s.low, s.counter, s.stack, work, n, targets);
    EnterMarked(s.index, s.onStack, s.counter, s.stack, n);
  }

  /** A root is entered when nothing is stacked. */
  lemma StartIsValid(g: Graph, R: Relation, s: Search, root: string, targets: seq<string>)
    requires s.Valid(g, R) && s.work == [] && Extends(g, R)
    requires root in g.nodes && root !in s.index
    requires forall y :: y in g.Targets(root) <==> y in targets
    ensures Enter(s, [], root, targets).Valid(g, R)
  {
    EnterExplored(g, s.index, s.counter, s.stack, s.work, root, targets);
    EnterIsValid(g, R, s, s.work, root, targets);
  }

  /** The next neighbour has not been seen: it is entered. */
  lemma DescendIsValid(g: Graph, R: Relation, s: Search, work': seq<Frame>, targets: seq<string>)
    requires s.Valid(g, R) && Extends(g, R) && TookNext(s.work, work')
    requires var top := s.work[|s.work| - 1]; var t := top.pending[0];
      t !in s.index && g.Edge(top.node, t) && forall y :: y in g.Targets(t) <==> y in targets
    ensures Enter(s, work', s.work[|s.work| - 1].pending[0], targets).Valid(g, R)
  {
    TookNextTrail(s.work, work');
    TakeNextOwed(g, s.work, work');
    DescendExplored(g, s.index, s.counter, s.stack, s.work, work', targets);
    TakeNextLowBounds(g, s.index, s.low, s.stack, s.work, work');
    EnterIsValid(g, R, s, work', s.work[|s.work| - 1].pending[0], targets);
  }

  /** The next neighbour is outside the node set, or its component is already reported. */
  lemma SkipIsValid(g: Graph, R: Relation, s: Search, work': seq<Frame>)
    requires s.Valid(g, R) && TookNext(s.work, work')
    requires var t := s.work[|s.work| - 1].pending[0]; t !in g.nodes || Popped(s.index, s.stack, t)
    ensures s.(work := work').Valid(g, R)
  {
    TookNextTrail(s.work, work');
    TakeNextExplored(g, s.index, s.stack, s.work, work');
    TakeNextOwed(g, s.work, work');
    TakeNextLowBounds(g, s.index, s.low, s.stack, s.work, work');
  }

  /** The next neighbour is still stacked: its number may lower the frame's `low`. */
  lemma FollowIsValid(g: Graph, R: Relation, s: Search, work': seq<Frame>)
    requires s.Valid(g, R) && Extends(g, R) && TookNext(s.work, work')
    requires var top := s.work[|s.work| - 1]; top.pending[0] in s.stack && g.Edge(top.node, top.pending[0])
    ensures var n, t := s.work[|s.work| - 1].node, s.work[|s.work| - 1].pending[0];
      n in s.low && t in s.index && s.(low := s.low[n := Min(s.low[n], s.index[t])], work := work').Valid(g, R)
  {
    var n, t := s.work[|s.work| - 1].node, s.work[|s.work| - 1].pending[0];
    TookNextTrail(s.work, work');
    assert Trail(s.work)[|s.work| - 1] == n;
    FollowLowReached(R, s.index, s.low, s.stack, Trail(s.work), t);
    LowerLowBounds(g, s.index, s.low, s.stack, s.work, n, Min(s.low[n], s.index[t]));
    TakeNextExplored(g, s.index, s.stack, s.work, work');
    TakeNextOwed(g, s.work, work');
    TakeNextLowBounds(g, s.index, s.low[n := Min(s.low[n], s.index[t])], s.stack, s.work, work');
  }

  /** A finished frame that is no root hands its `low` down and leaves its segment to the frame below. */
  lemma RetireIsValid(g: Graph, R: Relation, s: Search)
    requires s.Valid(g, R) && Extends(g, R) && |s.work| > 0 && s.work[|s.work| - 1].pending == []
    requires var n := s.work[|s.work| - 1].node; n in s.low && n in s.index && s.low[n] != s.index[n]
    ensures |s.work| > 1
    ensures var p, n := s.work[|s.work| - 2].node, s.work[|s.work| - 1].node;
      p in s.low && n in s.low &&
      s.(low := s.low[p := Min(s.low[p], s.low[n])], work := s.work[..|s.work| - 1]).Valid(g, R)
  {
    hide Numbered, Framed, PoppedClosed, Downward, Upward, LowReached, Explored, LowBounds;
    var trail, rest := Trail(s.work), s.work[..|s.work| - 1];
    ReleaseFrame(R, s.index, s.stack, s.work);
    RetireUpward(R, s.index, s.low, s.stack, trail);
    FrameReachesNext(R, s.index, s.stack, trail);
    RetireLowReached(R, s.index, s.low, s.stack, trail);
    RetireExplored(g, s.index, s.stack, s.work);
    LastFrames(R, s.index, s.low, s.stack, s.work);
    RetireLowBounds(g, s.index, s.low, s.stack, s.work);
  }

  /** Handing a root's `low` to the frame below changes nothing: it exceeds that frame's. */
  lemma RootLowIsHarmless(g: Graph, R: Relation, s: Search)
    requires s.Valid(g, R) && |s.work| > 1
    requires var n := s.work[|s.work| - 1].node; n in s.low && n in s.index && s.low[n] == s.index[n]
    ensures var p, n := s.work[|s.work| - 2].node, s.work[|s.work| - 1].node;
      p in s.low && n in s.low && s.low[p] < s.low[n] && s.low[p := Min(s.low[p], s.low[n])] == s.low
  {
    hide PoppedClosed, Downward, Upward, Explored, LowBounds, Numbered, Owed;
    var trail := Trail(s.work);
    var p, n := trail[|trail| - 2], trail[|trail| - 1];
    assert s.index[p] < s.index[n];
    assert Lowest(R, s.index, s.low, s.stack, p);
  }

  /** The segment of a finished root is its strong component, and popping it keeps the invariant. */
  lemma PopIsValid(g: Graph, s: Search, k: nat, onStack': map<string, bool>)
    requires s.Valid(g, Closure(g)) && |s.work| > 0 && s.work[|s.work| - 1].pending == []
    requires k < |s.stack| && s.stack[k] == s.work[|s.work| - 1].node
    requires s.stack[k] in s.low && s.stack[k] in s.index && s.low[s.stack[k]] == s.index[s.stack[k]]
    requires onStack'.Keys == s.onStack.Keys
    requires forall x :: x in s.onStack ==> onStack'[x] == (s.onStack[x] && x !in s.stack[k..])
    ensures s.(stack := s.stack[..k], onStack := onStack', work := s.work[..|s.work| - 1]).Valid(g, Closure(g))
    ensures g.Component(s.stack[k]) == Elements(s.stack[k..])
  {
    hide Numbered, Framed, PoppedClosed, Downward, Upward, LowReached, Explored, LowBounds;
    var R, n, trail, below := Closure(g), s.stack[k], Trail(s.work), s.stack[..k];
    ClosureExtends(g);
    RootIsTopSegment(s.index, s.stack, k, s.counter, g.nodes);
    ReleaseFrame(R, s.index, s.stack, s.work);
    PopFramed(R, s.index, s.stack, trail, k);
    PopPoppedClosed(g, s.index, s.low, s.counter, s.stack, s.work, k);
    PopUpward(g.nodes, s.counter, R, s.index, s.stack, trail, k);
    PopLowReached(R, s.index, s.low, s.stack, trail, k);
    PopExplored(g, s.index, s.counter, s.stack, s.work, k);
    PopLowBounds(g, s.index, s.low, s.stack, s.work, below);
    PopMarked(s.index, s.counter, g.nodes, s.onStack, onStack', s.stack, k);
    SegmentIsComponent(g, s, k);
  }

  lemma SegmentIsComponent(g: Graph, s: Search, k: nat)
    requires |s.work| > 0 && k < |s.stack| && s.stack[k] == Trail(s.work)[|s.work| - 1]
    requires Framed(s.index, s.stack, Trail(s.work))
    requires Downward(Closure(g), s.index, s.stack, Trail(s.work))
      && Upward(Closure(g), s.index, s.stack, Trail(s.work))
    requires PoppedClosed(g, s.index, s.stack) && PoppedClosed(g, s.index, s.stack[..k])
    requires Numbered(g.nodes, s.index, s.counter, s.stack)
    requires forall x :: x in s.index ==> (x in s.stack[..k] <==> x in s.stack && s.index[x] < s.index[s.stack[k]])
    requires forall x :: x in s.index ==> (x in s.stack[k..] <==> x in s.stack && s.index[x] >= s.index[s.stack[k]])
    ensures g.Component(s.stack[k]) == Elements(s.stack[k..])
  {
    var n := s.stack[k];
    ClosureExtends(g);
    forall x | x in s.stack[k..]
      ensures x in g.Component(n)
    {
      SegmentIsMutual(Closure(g), s.index, s.stack, Trail(s.work), k, x);
    }
    forall z | z in g.Component(n)
      ensures z in s.stack[k..]
    {
      g.ClosedUnderReach((set x | x in s.index && Popped(s.index, s.stack[..k], x)), n, z);
      if Popped(s.index, s.stack, z) {
        g.ClosedUnderReach((set x | x in s.index && Popped(s.index, s.stack, x)), z, n);
      }
    }
  }

  /** What the loop reads out of the state: every lookup it makes is defined. */
  lemma Lookups(g: Graph, R: Relation, s: Search)
    requires s.Valid(g, R)
    ensures s.index.Keys == s.low.Keys == s.onStack.Keys && s.index.Keys <= g.nodes
    ensures forall x :: x in s.index ==> (s.onStack[x] <==> x in s.stack)
    ensures forall i :: 0 <= i < |s.work| ==> s.work[i].node in s.stack
    ensures Owed(g, s.work)
    ensures forall x :: x in s.stack ==> x in s.index
    ensures Distinct(s.stack)
  {
    assert forall i :: 0 <= i < |s.work| ==> Trail(s.work)[i] == s.work[i].node;
    forall i, j | 0 <= i < j < |s.stack|
      ensures s.stack[i] != s.stack[j]
    {
      assert s.index[s.stack[i]] < s.index[s.stack[j]];
    }
  }
}
