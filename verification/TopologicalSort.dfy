/** The depth-first topological sort behind the table descriptions: three colours kept in a map
    from keys to booleans, a result that grows as visits finish, and an exception when a visit
    meets a node whose own visit has not finished yet. */
module TopologicalSort {
  import opened Wrappers

  datatype Outcome<+E> = Sorted(order: seq<E>) | Thrown

  // ----- Paths in the graph given by an edge function

  ghost predicate IsPath<E>(edge: E -> seq<E>, p: seq<E>) {
    && p != []
    && forall i, j :: 0 <= i < j < |p| && j == i + 1 ==> p[j] in edge(p[i])
  }

  ghost predicate IsPathFrom<E>(edge: E -> seq<E>, roots: seq<E>, p: seq<E>) {
    IsPath(edge, p) && p[0] in roots
  }

  ghost predicate Reachable<E(!new)>(edge: E -> seq<E>, roots: seq<E>, x: E) {
    exists p :: IsPathFrom(edge, roots, p) && p[|p| - 1] == x
  }

  /** `p` comes back to a node it has already passed. */
  ghost predicate ClosesCycle<E>(p: seq<E>) {
    p != [] && p[|p| - 1] in p[..|p| - 1]
  }

  ghost predicate ReachesCycle<E(!new)>(edge: E -> seq<E>, roots: seq<E>) {
    exists p :: IsPathFrom(edge, roots, p) && ClosesCycle(p)
  }

  /** A node is undefined when taking its key fails. */
  ghost predicate ReachesUndefined<K, E(!new)>(key: E -> Option<K>, edge: E -> seq<E>, roots: seq<E>) {
    exists x :: Reachable(edge, roots, x) && key(x).None?
  }

  ghost predicate Closed<E>(edge: E -> seq<E>, universe: set<E>) {
    forall e, d :: e in universe && d in edge(e) ==> d in universe
  }

  ghost predicate UniqueKeys<K, E>(key: E -> Option<K>, universe: set<E>) {
    forall a, b :: a in universe && b in universe && key(a).Some? && key(a) == key(b) ==> a == b
  }

  // ----- Orders

  ghost predicate NoDuplicates<E>(s: seq<E>) {
    forall i, j :: 0 <= i < j < |s| ==> s[i] != s[j]
  }

  /** Every dependency stands at a smaller index than its dependents. */
  ghost predicate DependenciesFirst<E>(edge: E -> seq<E>, s: seq<E>) {
    forall i, d :: 0 <= i < |s| && d in edge(s[i]) ==> d in s[..i]
  }

  lemma {:induction false} PathsDescend<E>(edge: E -> seq<E>, s: seq<E>, p: seq<E>, i: nat)
    requires DependenciesFirst(edge, s) && IsPath(edge, p)
    requires i < |s| && p[0] == s[i]
    ensures p[|p| - 1] in s[..i + 1]
    ensures |p| > 1 ==> p[|p| - 1] in s[..i]
    decreases |p|
  {
    if |p| > 1 {
      assert p[1] in edge(p[0]);
      var j :| 0 <= j < i && s[j] == p[1];
      PathsDescend(edge, s, p[1..], j);
    }
  }

  /** A duplicate-free order that puts dependencies first cannot contain a cycle, nor lead out of itself. */
  lemma OrderedGraphIsAcyclic<E(!new)>(edge: E -> seq<E>, s: seq<E>, roots: seq<E>)
    requires DependenciesFirst(edge, s) && NoDuplicates(s)
    requires forall r :: r in roots ==> r in s
    ensures !ReachesCycle(edge, roots)
    ensures forall x :: Reachable(edge, roots, x) ==> x in s
  {
    forall p | IsPathFrom(edge, roots, p)
      ensures p[|p| - 1] in s && !ClosesCycle(p)
    {
      var r :| 0 <= r < |s| && s[r] == p[0];
      PathsDescend(edge, s, p, r);
      if ClosesCycle(p) {
        var i :| 0 <= i < |p| - 1 && p[i] == p[|p| - 1];
        assert IsPath(edge, p[..i + 1]) && p[..i + 1][i] == p[i];
        PathsDescend(edge, s, p[..i + 1], r);
        var k :| 0 <= k < |s| && s[k] == p[i];
        PathsDescend(edge, s, p[i..], k);
      }
    }
  }

  /** Taking one more step along an edge. */
  lemma ExtendPath<E(!new)>(edge: E -> seq<E>, roots: seq<E>, p: seq<E>, d: E)
    requires IsPathFrom(edge, roots, p) && d in edge(p[|p| - 1])
    ensures IsPathFrom(edge, roots, p + [d])
    ensures Reachable(edge, roots, d)
  {
    var q := p + [d];
    forall i, j | 0 <= i < j < |q| && j == i + 1
      ensures q[j] in edge(q[i])
    {
      if j < |p| {
        assert p[j] in edge(p[i]);
      }
    }
    assert q[|q| - 1] == d;
  }

  lemma AppendDependent<E>(edge: E -> seq<E>, s: seq<E>, e: E)
    requires DependenciesFirst(edge, s)
    requires forall d :: d in edge(e) ==> d in s
    ensures DependenciesFirst(edge, s + [e])
  {
    var t := s + [e];
    forall i, d | 0 <= i < |t| && d in edge(t[i])
      ensures d in t[..i]
    {
      if i < |s| {
        assert d in s[..i] && t[..i] == s[..i];
      } else {
        assert t[..i] == s;
      }
    }
  }

  // ----- What holds between any two steps of the search

  predicate IsMarked<K(==)>(visited: map<K, bool>, k: K, mark: bool) {
    k in visited && visited[k] == mark
  }

  /** The marked keys with mark `mark` are exactly the keys of `nodes`. */
  ghost predicate MarksExactly<K(!new), E>(key: E -> Option<K>, visited: map<K, bool>, mark: bool, nodes: seq<E>) {
    && (forall e :: e in nodes ==> key(e).Some? && IsMarked(visited, key(e).value, mark))
    && (forall k :: IsMarked(visited, k, mark) ==> exists e :: e in nodes && key(e) == Some(k))
  }

  /** The temporarily marked keys are exactly those of `stack`, the path from a root to the node being
      visited; the permanently marked keys are exactly those of `result`, an ordered list of reachable
      nodes. */
  ghost predicate Consistent<K(!new), E(!new)>(key: E -> Option<K>, edge: E -> seq<E>, universe: set<E>, roots: seq<E>,
                                               stack: seq<E>, visited: map<K, bool>, result: seq<E>)
  {
    && (forall e :: e in stack || e in result ==> e in universe)
    && MarksExactly(key, visited, false, stack)
    && MarksExactly(key, visited, true, result)
    && NoDuplicates(result)
    && DependenciesFirst(edge, result)
    && (forall e :: e in result ==> Reachable(edge, roots, e))
    && (stack != [] ==> IsPathFrom(edge, roots, stack))
  }

  lemma EnterNode<K(!new), E(!new)>(key: E -> Option<K>, edge: E -> seq<E>, universe: set<E>, roots: seq<E>,
                                    stack: seq<E>, visited: map<K, bool>, result: seq<E>, e: E, k: K)
    requires Consistent(key, edge, universe, roots, stack, visited, result)
    requires e in universe && key(e) == Some(k) && k !in visited
    requires IsPathFrom(edge, roots, stack + [e])
    ensures Consistent(key, edge, universe, roots, stack + [e], visited[k := false], result)
  {
    var visited' := visited[k := false];
    assert forall l :: IsMarked(visited', l, true) <==> IsMarked(visited, l, true);
    assert forall l :: IsMarked(visited', l, false) <==> IsMarked(visited, l, false) || l == k;
    assert MarksExactly(key, visited', true, result) by {
      forall l | IsMarked(visited', l, true)
        ensures exists d :: d in result && key(d) == Some(l)
      {
        assert IsMarked(visited, l, true);
      }
    }
    assert e in stack + [e];
  }

  lemma LeaveNode<K(!new), E(!new)>(key: E -> Option<K>, edge: E -> seq<E>, universe: set<E>, roots: seq<E>,
                                    stack: seq<E>, visited: map<K, bool>, result: seq<E>, e: E, k: K)
    requires Consistent(key, edge, universe, roots, stack + [e], visited, result)
    requires key(e) == Some(k) && UniqueKeys(key, universe) && e !in stack
    requires stack != [] ==> IsPathFrom(edge, roots, stack)
    requires forall d :: d in edge(e) ==> d in result
    ensures Consistent(key, edge, universe, roots, stack, visited[k := true], result + [e])
  {
    var path, visited' := stack + [e], visited[k := true];
    assert e in path;
    assert forall d :: d in path && d != e ==> d in stack;
    assert forall l :: IsMarked(visited', l, true) <==> IsMarked(visited, l, true) || l == k;
    assert forall l :: IsMarked(visited', l, false) <==> IsMarked(visited, l, false) && l != k;
    AppendDependent(edge, result, e);
    assert path[|path| - 1] == e;
    assert Reachable(edge, roots, e);
    assert forall d :: d in result + [e] ==> d in result || d == e;
  }

  class TopologicalSort<K(==,!new), E(==,!new)> {
    var result: seq<E>
    var visitedNodes: map<K, bool>

    constructor ()
      ensures result == [] && visitedNodes == map[]
    {
      result, visitedNodes := [], map[];
    }

    /** The nodes a visit can still start working on; the termination measure. */
    ghost function Unvisited(key: E -> Option<K>, universe: set<E>): set<E>
      reads this
    {
      set e | e in universe && (key(e).None? || key(e).value !in visitedNodes)
    }

    ghost predicate Invariant(key: E -> Option<K>, edge: E -> seq<E>, universe: set<E>,
                              roots: seq<E>, stack: seq<E>)
      reads this
    {
      Consistent(key, edge, universe, roots, stack, visitedNodes, result)
    }

    /** Sorts `values`. `universe` is any finite set that holds the values and is closed under edges. */
    method Sort(values: seq<E>, key: E -> Option<K>, edge: E -> seq<E>, ghost universe: set<E>)
      returns (outcome: Outcome<E>)
      requires forall e :: e in values ==> e in universe
      requires Closed(edge, universe) && UniqueKeys(key, universe)
      modifies this
      ensures outcome.Sorted? ==> outcome.order == result
      ensures outcome.Sorted? ==> NoDuplicates(outcome.order) && DependenciesFirst(edge, outcome.order)
      ensures outcome.Sorted? ==> forall x :: x in outcome.order <==> Reachable(edge, values, x)
      ensures outcome.Thrown? <==> ReachesCycle(edge, values) || ReachesUndefined(key, edge, values)
    {
      visitedNodes := map[];
      result := [];
      for i := 0 to |values|
        invariant Invariant(key, edge, universe, values, [])
        invariant forall j :: 0 <= j < i ==> values[j] in result
      {
        var e := values[i];
        assert IsPathFrom(edge, values, [e]) && [e][|[e]| - 1] == e;
        var k := key(e);
        if k.None? {
          assert Reachable(edge, values, e);
          return Thrown;
        }
        if k.value in visitedNodes {
          assert IsMarked(visitedNodes, k.value, true) by { assert !IsMarked(visitedNodes, k.value, false); }
        } else {
          var thrown := Visit(e, key, edge, universe, values, []);
          if thrown {
            return Thrown;
          }
        }
      }
      outcome := Sorted(result);
      OrderedGraphIsAcyclic(edge, result, values);
    }

    method Visit(e: E, key: E -> Option<K>, edge: E -> seq<E>, ghost universe: set<E>,
                 ghost roots: seq<E>, ghost stack: seq<E>)
      returns (thrown: bool)
      requires Closed(edge, universe) && UniqueKeys(key, universe)
      requires Invariant(key, edge, universe, roots, stack)
      requires e in universe && IsPathFrom(edge, roots, stack + [e])
      modifies this
      ensures !thrown ==> Invariant(key, edge, universe, roots, stack)
      ensures !thrown ==> e in result && old(result) <= result && old(visitedNodes.Keys) <= visitedNodes.Keys
      ensures thrown ==> ReachesCycle(edge, roots) || ReachesUndefined(key, edge, roots)
      decreases Unvisited(key, universe), 1
    {
      ghost var path := stack + [e];
      assert path[|path| - 1] == e;
      var k := key(e);
      if k.None? {
        assert Reachable(edge, roots, e);
        return true;
      }
      if IsMarked(visitedNodes, k.value, true) {
        return false;
      }
      if IsMarked(visitedNodes, k.value, false) {
        assert path[..|path| - 1] == stack;
        assert ClosesCycle(path);
        return true;
      }
      thrown := Expand(e, k.value, key, edge, universe, roots, stack);
    }

    /** The rest of a visit, for an unmarked node: mark it, visit its edges in order, list it. */
    method Expand(e: E, k: K, key: E -> Option<K>, edge: E -> seq<E>, ghost universe: set<E>,
                  ghost roots: seq<E>, ghost stack: seq<E>)
      returns (thrown: bool)
      requires Closed(edge, universe) && UniqueKeys(key, universe)
      requires Invariant(key, edge, universe, roots, stack)
      requires e in universe && IsPathFrom(edge, roots, stack + [e])
      requires key(e) == Some(k) && k !in visitedNodes
      modifies this
      ensures !thrown ==> Invariant(key, edge, universe, roots, stack)
      ensures !thrown ==> e in result && old(result) <= result && old(visitedNodes.Keys) <= visitedNodes.Keys
      ensures thrown ==> ReachesCycle(edge, roots) || ReachesUndefined(key, edge, roots)
      decreases Unvisited(key, universe), 0
    {
      ghost var path := stack + [e];
      ghost var entry := Unvisited(key, universe);
      EnterNode(key, edge, universe, roots, stack, visitedNodes, result, e, k);
      visitedNodes := visitedNodes[k := false];
      assert e in entry && e !in Unvisited(key, universe);
      var targets := edge(e);
      for i := 0 to |targets|
        invariant Invariant(key, edge, universe, roots, path)
        invariant old(visitedNodes.Keys) <= visitedNodes.Keys && k in visitedNodes
        invariant old(result) <= result
        invariant forall j :: 0 <= j < i ==> targets[j] in result
      {
        ExtendPath(edge, roots, path, targets[i]);
        assert Unvisited(key, universe) <= entry - {e};
        thrown := Visit(targets[i], key, edge, universe, roots, path);
        if thrown {
          return true;
        }
      }
      LeaveNode(key, edge, universe, roots, stack, visitedNodes, result, e, k);
      visitedNodes := visitedNodes[k := true];
      result := result + [e];
      thrown := false;
    }
  }
}
