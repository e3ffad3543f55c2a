/** signal_depends_on: a depth-first search over continuous assignments with one visited set that
    is shared and mutated across all branches of the recursion. */
module SignalGraph {

  predicate OccursAt(hay: string, needle: string, k: int) {
    0 <= k && k + |needle| <= |hay| && hay[k..k + |needle|] == needle
  }

  /** Python's `needle in hay` for strings. */
  predicate Contains(hay: string, needle: string) {
    exists k :: 0 <= k <= |hay| && OccursAt(hay, needle, k)
  }

  /** Containment is occurrence anywhere, the ends included. */
  lemma ContainsIff(hay: string, needle: string)
    ensures Contains(hay, needle) <==> exists a: string, b: string :: hay == a + needle + b
  {
    if k :| 0 <= k <= |hay| && OccursAt(hay, needle, k) {
      assert hay == hay[..k] + needle + hay[k + |needle|..];
    }
    if a: string, b: string :| hay == a + needle + b {
      assert OccursAt(hay, needle, |a|);
    }
  }

  /** The assignment table and the identifier extraction, an arbitrary function of the expression. */
  datatype Graph = Graph(assignments: map<string, string>, identifiers: string -> seq<string>) {

    function Expression(v: string): string { if v in assignments then assignments[v] else "" }

    /** Names the search descends into from v. Empty names are rejected by the callee. */
    predicate Edge(v: string, w: string) {
      w in identifiers(Expression(v)) && w in assignments && w != ""
    }

    /** The source occurs in the name or in the assigned expression of v. */
    predicate Hit(v: string, source: string) {
      Contains(v, source) || Contains(Expression(v), source)
    }

    ghost predicate IsChain(p: seq<string>) {
      p != [] && forall k :: 0 <= k < |p| - 1 ==> Edge(p[k], p[k + 1])
    }

    ghost predicate ChainTo(p: seq<string>, target: string, source: string) {
      IsChain(p) && p[0] == target && Hit(p[|p| - 1], source)
    }

    /** The specification: some chain of assigned identifiers from target ends in a hit. */
    ghost predicate Depends(target: string, source: string) {
      target != "" && source != "" && exists p :: ChainTo(p, target, source)
    }

    lemma ChainExtends(v: string, p: seq<string>, source: string)
      requires p != [] && Edge(v, p[0]) && ChainTo(p, p[0], source)
      ensures ChainTo([v] + p, v, source)
    {
      var q := [v] + p;
      forall k | 0 <= k < |q| - 1 ensures Edge(q[k], q[k + 1]) {
        if k > 0 { assert Edge(p[k - 1], p[k - 1 + 1]); }
      }
    }

    /** Everything in `done` is no hit and has all its successors inside `seen`. */
    ghost predicate Explored(done: set<string>, seen: set<string>, source: string) {
      forall v :: v in done ==> !Hit(v, source) && forall w :: Edge(v, w) ==> w in seen
    }

    lemma ExploredUnion(a: set<string>, b: set<string>, c: set<string>, seen: set<string>, seen': set<string>,
                        source: string)
      requires Explored(a, seen, source) && Explored(b, seen', source) && seen <= seen' && c <= a + b
      ensures Explored(c, seen', source)
    {
      forall v | v in c ensures !Hit(v, source) && forall w :: Edge(v, w) ==> w in seen' {
        if v in a {
          assert forall w :: Edge(v, w) ==> w in seen;
        } else {
          assert v in b;
        }
      }
    }

    /** A closed explored set admits no chain to a hit from any of its members. */
    lemma {:induction false} ClosedMeansNone(seen: set<string>, p: seq<string>, source: string)
      requires Explored(seen, seen, source) && IsChain(p) && p[0] in seen
      ensures !Hit(p[|p| - 1], source)
      decreases |p|
    {
      if |p| > 1 {
        assert Edge(p[0], p[0 + 1]);
        var q := p[1..];
        forall k | 0 <= k < |q| - 1 ensures Edge(q[k], q[k + 1]) {
          assert Edge(p[k + 1], p[k + 1 + 1]);
        }
        ClosedMeansNone(seen, q, source);
      }
    }
  }

  /** The mutable set handed down through the recursion. */
  class Visited {
    var names: set<string>

    constructor ()
      ensures names == {}
    {
      names := {};
    }
  }

  /** The recursive calls. On True a witnessing chain exists. On False every name added has been
      explored: it is no hit and its successors are all in the set, even though sibling branches
      and unfinished ancestors contributed to it. */
  method Search(g: Graph, target: string, source: string, visited: Visited) returns (found: bool)
    requires source != ""
    modifies visited
    ensures old(visited.names) <= visited.names
    ensures found ==> target != "" && exists p :: g.ChainTo(p, target, source)
    ensures !found && target != "" ==> target in visited.names
    ensures !found ==> g.Explored(visited.names - old(visited.names), visited.names, source)
    decreases (g.assignments.Keys + {target}) - visited.names
  {
    hide Contains;
    if target == "" { return false; }
    if Contains(target, source) {
      assert g.ChainTo([target], target, source);
      return true;
    }
    if target in visited.names { return false; }
    ghost var before := visited.names;
    visited.names := visited.names + {target};
    var expression := g.Expression(target);
    if Contains(expression, source) {
      assert g.ChainTo([target], target, source);
      return true;
    }
    var ids := g.identifiers(expression);
    var k := 0;
    while k < |ids|
      invariant 0 <= k <= |ids|
      invariant before + {target} <= visited.names
      invariant forall j :: 0 <= j < k && g.Edge(target, ids[j]) ==> ids[j] in visited.names
      invariant g.Explored(visited.names - before - {target}, visited.names, source)
    {
      if ids[k] in g.assignments {
        ghost var mid := visited.names;
        var deeper := Search(g, ids[k], source, visited);
        if deeper {
          ghost var p :| g.ChainTo(p, ids[k], source);
          g.ChainExtends(target, p, source);
          return true;
        }
        g.ExploredUnion(mid - before - {target}, visited.names - mid, visited.names - before - {target},
                        mid, visited.names, source);
      }
      k := k + 1;
    }
    forall w | g.Edge(target, w) ensures w in visited.names {
      var j :| 0 <= j < |ids| && ids[j] == w;
    }
    assert g.Explored({target}, visited.names, source);
    g.ExploredUnion(visited.names - before - {target}, {target}, visited.names - before,
                    visited.names, visited.names, source);
    return false;
  }

  /** signal_depends_on with a fresh visited set: exact on every finite, possibly cyclic graph. */
  method SignalDependsOn(g: Graph, target: string, source: string) returns (found: bool)
    ensures found <==> g.Depends(target, source)
  {
    if target == "" || source == "" { return false; }
    var visited := new Visited();
    found := Search(g, target, source, visited);
    if !found {
      forall p | g.ChainTo(p, target, source) ensures false {
        g.ClosedMeansNone(visited.names, p, source);
      }
    }
  }

  /** Consistency of the specification with the code's own recursion equation, spelled out on the
      assignment table. */
  lemma DependsUnfolds(g: Graph, target: string, source: string)
    ensures var e := if target in g.assignments then g.assignments[target] else "";
            g.Depends(target, source) <==>
              && target != "" && source != ""
              && (|| (exists a: string, b: string :: target == a + source + b)
                  || (exists a: string, b: string :: e == a + source + b)
                  || (exists w :: w in g.identifiers(e) && w in g.assignments && g.Depends(w, source)))
  {
    hide Contains;
    UnfoldsByEdge(g, target, source);
    ContainsIff(target, source);
    ContainsIff(g.Expression(target), source);
    assert forall w :: g.Depends(w, source) ==> w != "";
  }

  lemma UnfoldsByEdge(g: Graph, target: string, source: string)
    ensures g.Depends(target, source) <==>
              target != "" && source != ""
              && (g.Hit(target, source) || exists w :: g.Edge(target, w) && g.Depends(w, source))
  {
    if g.Depends(target, source) && !g.Hit(target, source) {
      var p :| g.ChainTo(p, target, source);
      assert |p| > 1 && g.Edge(p[0], p[0 + 1]);
      var q := p[1..];
      forall k | 0 <= k < |q| - 1 ensures g.Edge(q[k], q[k + 1]) {
        assert g.Edge(p[k + 1], p[k + 1 + 1]);
      }
      assert g.ChainTo(q, p[1], source);
    }
    if target != "" && source != "" {
      if g.Hit(target, source) {
        assert g.ChainTo([target], target, source);
      } else if w :| g.Edge(target, w) && g.Depends(w, source) {
        var p :| g.ChainTo(p, w, source);
        g.ChainExtends(target, p, source);
      }
    }
  }
}
