/**
 Finite directed graphs as adjacency lists, and reachability by explicit paths.

 A vertex is an index; a listed target outside the domain is no edge. Every analysis of
 the compiler model (call graph, propagated subrelation, control flow) is specified
 against the paths defined here.
 */
module Paths {
  type Graph = seq<seq<nat>>

  ghost predicate Edge(g: Graph, u: nat, v: nat) {
    u < |g| && v < |g| && v in g[u]
  }

  /** `p` is a walk of `g` from `u` to `v`; a single vertex is a walk to itself. */
  ghost predicate Walk(g: Graph, p: seq<nat>, u: nat, v: nat) {
    && 0 < |p|
    && p[0] == u
    && p[|p| - 1] == v
    && forall i :: 0 <= i < |p| - 1 ==> Edge(g, p[i], p[i + 1])
  }

  ghost predicate Reaches(g: Graph, u: nat, v: nat) {
    exists p :: Walk(g, p, u, v)
  }

  /** `v` reaches itself by a non-empty walk. */
  ghost predicate OnCycle(g: Graph, v: nat) {
    exists w :: Edge(g, v, w) && Reaches(g, w, v)
  }

  /** Every edge that leaves `s` ends in `s`. */
  ghost predicate Closed(g: Graph, s: set<nat>) {
    forall u, v :: u in s && Edge(g, u, v) ==> v in s
  }

  lemma ReachesSelf(g: Graph, v: nat)
    ensures Reaches(g, v, v)
  {
    assert Walk(g, [v], v, v);
  }

  lemma ReachesEdge(g: Graph, u: nat, v: nat)
    requires Edge(g, u, v)
    ensures Reaches(g, u, v)
  {
    assert Walk(g, [u, v], u, v);
  }

  lemma ReachesTrans(g: Graph, u: nat, v: nat, w: nat)
    requires Reaches(g, u, v) && Reaches(g, v, w)
    ensures Reaches(g, u, w)
  {
    var p :| Walk(g, p, u, v);
    var q :| Walk(g, q, v, w);
    var r := p + q[1..];
    assert r[|r| - 1] == w by {
      if |q| == 1 {
        assert r == p;
      }
    }
    forall i | 0 <= i < |r| - 1
      ensures Edge(g, r[i], r[i + 1])
    {
      if i < |p| - 1 {
      } else {
        var j := i - |p| + 1;
        assert r[i] == q[j] && r[i + 1] == q[j + 1];
      }
    }
    assert Walk(g, r, u, w);
  }

  /** A walk either stays put or starts with an edge. */
  lemma FirstStep(g: Graph, u: nat, v: nat)
    requires Reaches(g, u, v)
    ensures u == v || exists w :: Edge(g, u, w) && Reaches(g, w, v)
  {
    var p :| Walk(g, p, u, v);
    if |p| > 1 {
      assert Walk(g, p[1..], p[1], v);
      assert Edge(g, u, p[1]);
    }
  }

  /** Walks never leave a closed set. */
  lemma ClosedWalk(g: Graph, s: set<nat>, u: nat, v: nat)
    requires Closed(g, s) && u in s && Reaches(g, u, v)
    ensures v in s
  {
    var p :| Walk(g, p, u, v);
    var i := 0;
    while i < |p| - 1
      invariant 0 <= i < |p|
      invariant p[i] in s
    {
      assert Edge(g, p[i], p[i + 1]);
      i := i + 1;
    }
  }

  lemma CycleThrough(g: Graph, u: nat, v: nat)
    requires u != v && Reaches(g, u, v) && Reaches(g, v, u)
    ensures OnCycle(g, u)
  {
    FirstStep(g, u, v);
    var w :| Edge(g, u, w) && Reaches(g, w, v);
    ReachesTrans(g, w, v, u);
  }
}
