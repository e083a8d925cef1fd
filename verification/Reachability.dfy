/** Reachability in a finite-branching graph, and the invariant of a worklist that
    explores it. The graph is given by its successor function. */
module Reachability {

  ghost predicate IsPath<T(!new)>(edges: T -> set<T>, roots: set<T>, path: seq<T>, key: T) {
    && path != []
    && path[0] in roots
    && path[|path| - 1] == key
    && forall i :: 0 <= i < |path| - 1 ==> path[i + 1] in edges(path[i])
  }

  ghost predicate Reachable<T(!new)>(edges: T -> set<T>, roots: set<T>, key: T) {
    exists path :: IsPath(edges, roots, path, key)
  }

  lemma RootsReachable<T(!new)>(edges: T -> set<T>, roots: set<T>)
    ensures forall k :: k in roots ==> Reachable(edges, roots, k)
  {
    forall k | k in roots
      ensures Reachable(edges, roots, k)
    {
      assert IsPath(edges, roots, [k], k);
    }
  }

  lemma EdgeReachable<T(!new)>(edges: T -> set<T>, roots: set<T>, from: T, to: T)
    requires Reachable(edges, roots, from) && to in edges(from)
    ensures Reachable(edges, roots, to)
  {
    var path :| IsPath(edges, roots, path, from);
    assert IsPath(edges, roots, path + [to], to);
  }

  lemma EdgesReachable<T(!new)>(edges: T -> set<T>, roots: set<T>, from: T, next: set<T>)
    requires Reachable(edges, roots, from) && next <= edges(from)
    ensures forall k :: k in next ==> Reachable(edges, roots, k)
  {
    forall k | k in next
      ensures Reachable(edges, roots, k)
    {
      EdgeReachable(edges, roots, from, k);
    }
  }

  lemma {:induction false} PathInClosedSet<T(!new)>(edges: T -> set<T>, roots: set<T>, path: seq<T>, key: T, s: iset<T>)
    requires IsPath(edges, roots, path, key)
    requires forall k :: k in roots ==> k in s
    requires forall k, t :: k in s && t in edges(k) ==> t in s
    ensures key in s
  {
    if |path| > 1 {
      var before := path[..|path| - 1];
      PathInClosedSet(edges, roots, before, before[|before| - 1], s);
      assert path[|path| - 2 + 1] in edges(path[|path| - 2]);
    }
  }

  /** A set that holds the roots and is closed under edges holds every reachable node. */
  lemma ReachableInClosedSet<T(!new)>(edges: T -> set<T>, roots: set<T>, s: iset<T>)
    requires forall k :: k in roots ==> k in s
    requires forall k, t :: k in s && t in edges(k) ==> t in s
    ensures forall k :: Reachable(edges, roots, k) ==> k in s
  {
    forall k | Reachable(edges, roots, k)
      ensures k in s
    {
      var path :| IsPath(edges, roots, path, k);
      PathInClosedSet(edges, roots, path, k, s);
    }
  }

  lemma {:induction false} PathAgree<T(!new)>(
    edges: T -> set<T>, edges': T -> set<T>, roots: set<T>, path: seq<T>, key: T)
    requires forall k :: Reachable(edges, roots, k) ==> edges(k) == edges'(k)
    requires IsPath(edges, roots, path, key) || IsPath(edges', roots, path, key)
    ensures IsPath(edges, roots, path, key) && IsPath(edges', roots, path, key)
  {
    if |path| > 1 {
      var before := path[..|path| - 1];
      var last := before[|before| - 1];
      assert path[|path| - 2 + 1] == key;
      PathAgree(edges, edges', roots, before, last);
      assert Reachable(edges, roots, last);
      assert key in edges(last);
      forall i | 0 <= i < |path| - 1
        ensures path[i + 1] in edges(path[i]) && path[i + 1] in edges'(path[i])
      {
        if i < |before| - 1 {
          assert before[i + 1] in edges(before[i]) && before[i + 1] in edges'(before[i]);
        }
      }
    }
  }

  /** Two graphs that agree on the nodes reachable in the first reach the same nodes. */
  lemma ReachableAgree<T(!new)>(edges: T -> set<T>, edges': T -> set<T>, roots: set<T>)
    requires forall k :: Reachable(edges, roots, k) ==> edges(k) == edges'(k)
    ensures forall k :: Reachable(edges, roots, k) <==> Reachable(edges', roots, k)
  {
    forall k, path | IsPath(edges, roots, path, k) || IsPath(edges', roots, path, k)
      ensures IsPath(edges, roots, path, k) && IsPath(edges', roots, path, k)
    {
      PathAgree(edges, edges', roots, path, k);
    }
  }

  /** The worklist invariant over the nodes in `scope`: `done` has been expanded and
      its successors in scope are all in `done + todo`. */
  ghost predicate Frontier<T(!new)>(edges: T -> set<T>, scope: T -> bool, roots: set<T>, done: set<T>, todo: set<T>) {
    && roots <= done + todo
    && (forall k :: k in done + todo ==> scope(k) && Reachable(edges, roots, k))
    && (forall k, t :: k in done && t in edges(k) && scope(t) ==> t in done + todo)
  }

  /** The scope of a worklist that takes every node. */
  predicate Anything<T>(key: T) { true }

  lemma FrontierStart<T(!new)>(edges: T -> set<T>, scope: T -> bool, roots: set<T>)
    requires forall k :: k in roots ==> scope(k)
    ensures Frontier(edges, scope, roots, {}, roots)
  {
    RootsReachable(edges, roots);
  }

  lemma FrontierExpand<T(!new)>(
    edges: T -> set<T>, scope: T -> bool, roots: set<T>, done: set<T>, todo: set<T>, key: T, next: set<T>)
    requires Frontier(edges, scope, roots, done, todo + {key})
    requires forall t :: t in next <==> t in edges(key) && scope(t)
    ensures Frontier(edges, scope, roots, done + {key}, todo + next)
  {
    hide Reachable;
    assert key in done + (todo + {key});
    EdgesReachable(edges, roots, key, next);
    var done', todo' := done + {key}, todo + next;
    assert forall k :: k in done' + todo' <==> k in done || k == key || k in todo || k in next;
  }

  lemma FrontierSkip<T(!new)>(edges: T -> set<T>, scope: T -> bool, roots: set<T>, done: set<T>, todo: set<T>, key: T)
    requires Frontier(edges, scope, roots, done, todo + {key}) && key in done
    ensures Frontier(edges, scope, roots, done, todo)
  {
    assert done + (todo + {key}) == done + todo;
  }

  lemma FrontierComplete<T(!new)>(edges: T -> set<T>, scope: T -> bool, roots: set<T>, done: set<T>)
    requires Frontier(edges, scope, roots, done, {})
    requires forall k, t :: !scope(k) && t in edges(k) ==> !scope(t)
    ensures forall k :: k in done <==> Reachable(edges, roots, k) && scope(k)
  {
    var s := iset k | k in done || !scope(k);
    ReachableInClosedSet(edges, roots, s);
  }
}
