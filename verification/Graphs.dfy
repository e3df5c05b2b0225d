/** Directed graphs given by successor and predecessor lists, and reachability in them. */
module Graphs {

  /** The edge lists of a flow graph; nodes are the numbers 0, 1, ..., in layout order.
      Lists, not sets: a branch to its own fall-through yields the same edge twice. */
  datatype Graph = Graph(succ: seq<seq<nat>>, pred: seq<seq<nat>>) {

    predicate Node(u: nat) {
      u < |succ|
    }

    /** Predecessor lists are the inverse of successor lists, counting parallel edges. */
    ghost predicate Valid() {
      && |succ| == |pred|
      && (forall u: nat, v: nat :: u < |succ| && v in succ[u] ==> v < |succ|)
      && (forall u: nat, v: nat :: v < |pred| && u in pred[v] ==> u < |pred|)
      && (forall u: nat, v: nat {:trigger multiset(succ[u])[v]} {:trigger multiset(pred[v])[u]} ::
            u < |succ| && v < |succ| ==> multiset(succ[u])[v] == multiset(pred[v])[u])
    }

    ghost predicate Edge(u: nat, v: nat) {
      Node(u) && v in succ[u]
    }

    ghost predicate Path(p: seq<nat>) {
      && 0 < |p|
      && (forall i :: 0 <= i < |p| ==> Node(p[i]))
      && (forall i :: 0 <= i < |p| - 1 ==> Edge(p[i], p[i + 1]))
    }

    ghost predicate PathFromTo(p: seq<nat>, u: nat, v: nat) {
      Path(p) && p[0] == u && p[|p| - 1] == v
    }

    ghost predicate Reaches(u: nat, v: nat) {
      exists p :: PathFromTo(p, u, v)
    }

    /** u and v lie in the same strongly connected component. */
    ghost predicate Mutual(u: nat, v: nat) {
      Reaches(u, v) && Reaches(v, u)
    }
  }

  lemma EdgeBothWays(g: Graph, u: nat, v: nat)
    requires g.Valid() && g.Node(u) && g.Node(v)
    ensures v in g.succ[u] <==> u in g.pred[v]
  {
    assert v in multiset(g.succ[u]) <==> u in multiset(g.pred[v]);
  }

  lemma ReachesSelf(g: Graph, u: nat)
    requires g.Node(u)
    ensures g.Reaches(u, u)
  {
    assert g.PathFromTo([u], u, u);
  }

  lemma ReachesEdge(g: Graph, u: nat, v: nat)
    requires g.Valid() && g.Edge(u, v)
    ensures g.Reaches(u, v)
  {
    assert g.PathFromTo([u, v], u, v);
  }

  lemma ReachesTransitive(g: Graph, u: nat, v: nat, w: nat)
    requires g.Reaches(u, v) && g.Reaches(v, w)
    ensures g.Reaches(u, w)
  {
    var p :| g.PathFromTo(p, u, v);
    var q :| g.PathFromTo(q, v, w);
    var r := p + q[1..];
    assert forall i :: |p| <= i < |r| ==> r[i] == q[i - |p| + 1];
    assert g.PathFromTo(r, u, w);
  }

  lemma MutualTransitive(g: Graph, u: nat, v: nat, w: nat)
    requires g.Mutual(u, v) && g.Mutual(v, w)
    ensures g.Mutual(u, w)
  {
    ReachesTransitive(g, u, v, w);
    ReachesTransitive(g, w, v, u);
  }

  /** Both ends of every part of a path. */
  lemma PathPart(g: Graph, p: seq<nat>, i: nat, j: nat)
    requires g.Path(p) && i <= j < |p|
    ensures g.Reaches(p[i], p[j])
  {
    assert g.PathFromTo(p[i..j + 1], p[i], p[j]);
  }

  /** A path that starts in S and ends outside leaves S over some edge, for the first time. */
  lemma {:induction false} FirstExit(g: Graph, p: seq<nat>, S: set<nat>) returns (i: nat)
    requires g.Path(p) && p[0] in S && p[|p| - 1] !in S
    ensures i + 1 < |p| && p[i + 1] !in S
    ensures forall j :: 0 <= j <= i ==> p[j] in S
  {
    i := 0;
    while p[i + 1] in S
      invariant i + 1 < |p|
      decreases |p| - i
      invariant forall j :: 0 <= j <= i ==> p[j] in S
    {
      i := i + 1;
    }
  }

  lemma {:induction false} PathStays(g: Graph, S: set<nat>, p: seq<nat>)
    requires g.Path(p) && p[0] in S
    requires forall u: nat, v: nat :: u in S && g.Edge(u, v) ==> v in S
    ensures p[|p| - 1] in S
  {
    if |p| > 1 {
      assert g.Edge(p[0], p[1]);
      PathStays(g, S, p[1..]);
    }
  }

  /** A set closed under edges is closed under reachability. */
  lemma StaysInClosed(g: Graph, S: set<nat>, u: nat, v: nat)
    requires g.Reaches(u, v) && u in S
    requires forall x: nat, y: nat :: x in S && g.Edge(x, y) ==> y in S
    ensures v in S
  {
    var p :| g.PathFromTo(p, u, v);
    PathStays(g, S, p);
  }
}
