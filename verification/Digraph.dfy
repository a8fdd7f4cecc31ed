/** Finite directed graphs over names: walks, reachability, strong components. */
module Digraph {
  import opened Order

  /** An adjacency (a name missing from it has no targets) restricted to `nodes`. */
  datatype Graph = Graph(adjacency: map<string, set<string>>, nodes: set<string>)
  {
    function Targets(n: string): set<string>
    {
      if n in adjacency then adjacency[n] else {}
    }

    predicate Edge(u: string, v: string)
    {
      u in nodes && v in nodes && v in Targets(u)
    }

    ghost predicate Walk(p: seq<string>)
    {
      && |p| > 0
      && (forall i :: 0 <= i < |p| ==> p[i] in nodes)
      && (forall i :: 0 <= i < |p| - 1 ==> Edge(p[i], p[i + 1]))
    }

    ghost predicate Joins(p: seq<string>, u: string, v: string)
    {
      Walk(p) && p[0] == u && p[|p| - 1] == v
    }

    ghost predicate Reach(u: string, v: string)
    {
      exists p :: Joins(p, u, v)
    }

    ghost predicate Mutual(u: string, v: string)
    {
      Reach(u, v) && Reach(v, u)
    }

    /** The strong component of `n`: every node it reaches that also reaches it. */
    ghost function Component(n: string): set<string>
    {
      set m | m in nodes && Mutual(n, m)
    }

    lemma ReachSelf(u: string)
      requires u in nodes
      ensures Reach(u, u)
    {
      assert Joins([u], u, u);
    }

    lemma ReachEdge(u: string, v: string)
      requires Edge(u, v)
      ensures Reach(u, v)
    {
      assert Joins([u, v], u, v);
    }

    lemma ReachTrans(u: string, v: string, w: string)
      requires Reach(u, v) && Reach(v, w)
      ensures Reach(u, w)
    {
      var p :| Joins(p, u, v);
      var q :| Joins(q, v, w);
      assert Joins(p + q[1..], u, w);
    }

    /** Reachability cannot leave a set that keeps its own edges. */
    lemma {:induction false} ClosedUnderReach(inside: set<string>, u: string, v: string)
      requires forall x, y :: x in inside && Edge(x, y) ==> y in inside
      requires u in inside && Reach(u, v)
      ensures v in inside
    {
      var p :| Joins(p, u, v);
      var i := 0;
      while i < |p| - 1
        invariant 0 <= i < |p|
        invariant p[i] in inside
      {
        assert Edge(p[i], p[i + 1]);
        i := i + 1;
      }
    }

    lemma ReachInNodes(u: string, v: string)
      requires Reach(u, v)
      ensures u in nodes && v in nodes
    {
      var p :| Joins(p, u, v);
      assert p[0] in nodes && p[|p| - 1] in nodes;
    }

    lemma SameComponent(u: string, v: string)
      requires Mutual(u, v)
      ensures Component(u) == Component(v)
    {
      forall m | m in nodes
        ensures Mutual(u, m) <==> Mutual(v, m)
      {
        if Mutual(u, m) {
          ReachTrans(v, u, m);
          ReachTrans(m, u, v);
        }
        if Mutual(v, m) {
          ReachTrans(u, v, m);
          ReachTrans(m, v, u);
        }
      }
    }

    /** A walk with a repeated node can be cut there. */
    lemma CutLoop(p: seq<string>, i: nat, j: nat)
      requires Walk(p) && i < j < |p| && p[i] == p[j]
      ensures Joins(p[..i] + p[j..], p[0], p[|p| - 1])
    {
      var q := p[..i] + p[j..];
      assert i == 0 ==> q[0] == p[j];
      forall k | 0 <= k < |q| - 1
        ensures Edge(q[k], q[k + 1])
      {
        if k < i - 1 {
          assert Edge(p[k], p[k + 1]);
        } else if k == i - 1 {
          assert Edge(p[k], p[k + 1]);
          assert q[k + 1] == p[j];
        } else {
          assert Edge(p[k - i + j], p[k - i + j + 1]);
        }
      }
    }

    /** Whatever is reachable is reachable without visiting a node twice. */
    lemma {:induction false} SimpleWalk(p: seq<string>) returns (q: seq<string>)
      requires Walk(p)
      ensures Joins(q, p[0], p[|p| - 1]) && Distinct(q)
      decreases |p|
    {
      if Distinct(p) {
        q := p;
      } else {
        var i, j :| 0 <= i < j < |p| && p[i] == p[j];
        CutLoop(p, i, j);
        q := SimpleWalk(p[..i] + p[j..]);
      }
    }
  }
}
