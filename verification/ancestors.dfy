/** `matchesSelectorToParentElements`: does an element, or one of its
    ancestors up to and including a base node, match a selector?

    The element tree is abstract: nodes of any type `N`, a parent link per
    node, and a rank that strictly decreases from a node to its parent,
    which makes every upward walk finite. The selector is a predicate
    `matches` on nodes, and whether the host offers any selector-matching
    method at all is the flag `hasMatcher`. */
module Ancestors {
  import opened Wrappers

  /** Parent links (`None` at the top of the tree) and a rank on nodes. */
  datatype Tree<!N(!new)> = Tree(parent: N -> Option<N>, rank: N -> nat)
  {
    /** Every parent step strictly lowers the rank, so links are acyclic. */
    ghost predicate Valid() {
      forall n :: parent(n).Some? ==> rank(parent(n).value) < rank(n)
    }
  }

  /** The do-while loop: test `node`; stop with `true` on a match, stop with
      `false` at the base node (after testing it) or at the top; otherwise
      move to the parent. */
  function MatchesFrom<N(==,!new)>(t: Tree<N>, matches: N -> bool, node: N, baseNode: N): (b: bool)
    requires t.Valid()
    // the test on a node runs before the base-node check
    ensures matches(node) ==> b
    ensures node == baseNode ==> (b <==> matches(node))
    ensures t.parent(node).None? ==> (b <==> matches(node))
    decreases t.rank(node)
  {
    if matches(node) then true
    else if node == baseNode then false
    else match t.parent(node)
      case None => false
      case Some(p) => MatchesFrom(t, matches, p, baseNode)
  }

  /** The whole operation: without a selector-matching method the answer is
      `false` and no node is tested; otherwise the walk starts at `el`. */
  function MatchesSelectorToParentElements<N(==,!new)>(
    t: Tree<N>, matches: N -> bool, hasMatcher: bool, el: N, baseNode: N): (b: bool)
    requires t.Valid()
    ensures !hasMatcher ==> !b
    ensures hasMatcher && matches(el) ==> b
    ensures el == baseNode ==> (b <==> hasMatcher && matches(el))
  {
    if !hasMatcher then false else MatchesFrom(t, matches, el, baseNode)
  }

  /** `c` is the sequence of nodes the walk from `node` visits: it starts at
      `node`, follows parent links, passes the base node only as its last
      entry, and ends at the base node or at the top of the tree. */
  ghost predicate IsWalk<N(!new)>(t: Tree<N>, node: N, baseNode: N, c: seq<N>) {
    && |c| >= 1
    && c[0] == node
    && (forall i :: 0 <= i < |c| - 1 ==> c[i] != baseNode && t.parent(c[i]) == Some(c[i + 1]))
    && (c[|c| - 1] == baseNode || t.parent(c[|c| - 1]).None?)
  }

  /** The nodes from `node` up to and including `baseNode`, or up to the top
      of the tree when `baseNode` is not an ancestor. */
  function Chain<N(==,!new)>(t: Tree<N>, node: N, baseNode: N): (c: seq<N>)
    requires t.Valid()
    ensures IsWalk(t, node, baseNode, c)
    ensures |c| <= t.rank(node) + 1
    decreases t.rank(node)
  {
    if node == baseNode then [node]
    else match t.parent(node)
      case None => [node]
      case Some(p) => [node] + Chain(t, p, baseNode)
  }

  /** True when some node of `c` matches. */
  ghost predicate SomeMatch<N>(matches: N -> bool, c: seq<N>) {
    exists i :: 0 <= i < |c| && matches(c[i])
  }

  /** The walk has exactly one possible shape: any `c` satisfying `IsWalk`
      is `Chain`. */
  lemma {:induction false} WalkIsUnique<N(!new)>(t: Tree<N>, node: N, baseNode: N, c: seq<N>)
    requires t.Valid()
    requires IsWalk(t, node, baseNode, c)
    ensures c == Chain(t, node, baseNode)
    decreases t.rank(node)
  {
    if |c| == 1 {
      if node != baseNode {
        assert t.parent(node).None?;
      }
    } else {
      assert c[0] != baseNode && t.parent(c[0]) == Some(c[1]);
      var p := c[1];
      var rest := c[1..];
      assert IsWalk(t, p, baseNode, rest) by {
        forall i | 0 <= i < |rest| - 1
          ensures rest[i] != baseNode && t.parent(rest[i]) == Some(rest[i + 1])
        {
          assert rest[i] == c[i + 1] && rest[i + 1] == c[i + 2];
        }
      }
      WalkIsUnique(t, p, baseNode, rest);
      assert c == [node] + rest;
    }
  }

  /** The walk from `node` answers `true` exactly when some node on its
      chain matches. */
  lemma {:induction false} MatchesIffSomeMatchOnChain<N(!new)>(
    t: Tree<N>, matches: N -> bool, node: N, baseNode: N)
    requires t.Valid()
    ensures MatchesFrom(t, matches, node, baseNode) <==> SomeMatch(matches, Chain(t, node, baseNode))
    decreases t.rank(node)
  {
    var c := Chain(t, node, baseNode);
    if matches(node) {
      assert matches(c[0]);
    } else if node == baseNode {
      assert c == [node];
    } else {
      match t.parent(node)
      case None =>
        assert c == [node];
      case Some(p) =>
        var rest := Chain(t, p, baseNode);
        assert c == [node] + rest;
        MatchesIffSomeMatchOnChain(t, matches, p, baseNode);
        if SomeMatch(matches, rest) {
          var i :| 0 <= i < |rest| && matches(rest[i]);
          assert matches(c[i + 1]);
        }
        if SomeMatch(matches, c) {
          var i :| 0 <= i < |c| && matches(c[i]);
          assert i > 0;
          assert matches(rest[i - 1]);
        }
    }
  }

  /** The answer is decided by `hasMatcher` and the nodes on the chain from
      `el` to `baseNode` alone: predicates that agree there give the same
      answer, so nodes above the base node are never tested. */
  lemma OnlyChainIsTested<N(!new)>(
    t: Tree<N>, matches: N -> bool, matches': N -> bool, hasMatcher: bool, el: N, baseNode: N)
    requires t.Valid()
    requires forall i :: 0 <= i < |Chain(t, el, baseNode)| ==>
      matches(Chain(t, el, baseNode)[i]) == matches'(Chain(t, el, baseNode)[i])
    ensures MatchesSelectorToParentElements(t, matches, hasMatcher, el, baseNode)
         == MatchesSelectorToParentElements(t, matches', hasMatcher, el, baseNode)
  {
    MatchesIffSomeMatchOnChain(t, matches, el, baseNode);
    MatchesIffSomeMatchOnChain(t, matches', el, baseNode);
    var c := Chain(t, el, baseNode);
    if SomeMatch(matches, c) {
      var i :| 0 <= i < |c| && matches(c[i]);
      assert matches'(c[i]);
    }
    if SomeMatch(matches', c) {
      var i :| 0 <= i < |c| && matches'(c[i]);
      assert matches(c[i]);
    }
  }

  /** Without a selector-matching method the answer does not depend on the
      selector at all: no node is tested. */
  lemma NoMatcherTestsNothing<N(!new)>(
    t: Tree<N>, matches: N -> bool, matches': N -> bool, el: N, baseNode: N)
    requires t.Valid()
    ensures !MatchesSelectorToParentElements(t, matches, false, el, baseNode)
    ensures MatchesSelectorToParentElements(t, matches, false, el, baseNode)
         == MatchesSelectorToParentElements(t, matches', false, el, baseNode)
  {
  }

  /** The full answer: `true` exactly when a matching method exists and some
      node from `el` up to and including `baseNode` (or up to the top of the
      tree) matches. */
  lemma MatchesIffMatcherAndSomeMatch<N(!new)>(
    t: Tree<N>, matches: N -> bool, hasMatcher: bool, el: N, baseNode: N)
    requires t.Valid()
    ensures MatchesSelectorToParentElements(t, matches, hasMatcher, el, baseNode)
        <==> hasMatcher && SomeMatch(matches, Chain(t, el, baseNode))
  {
    MatchesIffSomeMatchOnChain(t, matches, el, baseNode);
  }

  /** A path 3 -> 2 -> 1 -> 0 of integer nodes, 0 at the top. */
  function PathTree(): (t: Tree<int>)
    ensures t.Valid()
    ensures t.parent(3) == Some(2) && t.parent(0) == None
  {
    Tree(n => if n > 0 then Some(n - 1) else None, n => if n > 0 then n else 0)
  }

  /** On that path, walking from 3 with base node 1: a match at 2, strictly
      between the two, is found; a match only at 0, above the base node, is
      not; with 3 as its own base node its own match counts; and without a
      matching method nothing is found. */
  lemma PathExamples()
    ensures MatchesSelectorToParentElements(PathTree(), n => n == 2, true, 3, 1)
    ensures !MatchesSelectorToParentElements(PathTree(), n => n == 0, true, 3, 1)
    ensures MatchesSelectorToParentElements(PathTree(), n => n == 3, true, 3, 3)
    ensures !MatchesSelectorToParentElements(PathTree(), n => true, false, 3, 1)
  {
    var t := PathTree();
    assert MatchesFrom(t, n => n == 2, 3, 1);
    assert !MatchesFrom(t, n => n == 0, 1, 1);
    assert !MatchesFrom(t, n => n == 0, 2, 1);
    assert !MatchesFrom(t, n => n == 0, 3, 1);
  }
}
