/** `_gather_descendants` (backend/main.py): the ids to delete for a subtree,
    found by a stack traversal over a parent-to-children map built from the
    flat table. */
module Descendants {
  import opened Wrappers
  import opened Models
  import opened Ancestry

  /** The ids of the table greater than `x`; it shrinks on every step down
      a parent link, which is what makes the recursions below terminate. */
  function Above(nodes: seq<Node>, x: int): set<NodeId>
  {
    set n | n in nodes && n.id > x :: n.id
  }

  lemma AboveShrinks(nodes: seq<Node>, x: int, k: NodeId)
    requires k in Ids(nodes) && x < k
    ensures Above(nodes, k) < Above(nodes, x)
  {
    assert k in Above(nodes, x);
  }

  /** Number of ids the traversal visits from `x`: `x` and, recursively, its children. */
  function Size(nodes: seq<Node>, x: int): nat
    requires ParentsPrecede(nodes)
    decreases Above(nodes, x), 1
  {
    1 + SizeOfKids(nodes, x, KidIds(nodes, x))
  }

  function SizeOfKids(nodes: seq<Node>, x: int, ks: seq<NodeId>): nat
    requires ParentsPrecede(nodes)
    requires forall k :: k in ks ==> k in Ids(nodes) && x < k
    decreases Above(nodes, x), 0, |ks|
  {
    if ks == [] then 0
    else
      var front, last := ks[..|ks| - 1], ks[|ks| - 1];
      assert forall k :: k in front ==> k in ks;
      AboveShrinks(nodes, x, last);
      SizeOfKids(nodes, x, front) + Size(nodes, last)
  }

  /** Total work left for a stack: the sum of the sizes of its entries. */
  function StackSize(nodes: seq<Node>, stack: seq<int>): nat
    requires ParentsPrecede(nodes)
  {
    if stack == [] then 0
    else StackSize(nodes, stack[..|stack| - 1]) + Size(nodes, stack[|stack| - 1])
  }

  lemma {:induction false} SizeOfKidsIsStackSize(nodes: seq<Node>, x: int, ks: seq<NodeId>)
    requires ParentsPrecede(nodes)
    requires forall k :: k in ks ==> k in Ids(nodes) && x < k
    ensures SizeOfKids(nodes, x, ks) == StackSize(nodes, ks)
    decreases |ks|
  {
    if ks != [] {
      SizeOfKidsIsStackSize(nodes, x, ks[..|ks| - 1]);
    }
  }

  lemma {:induction false} StackSizeConcat(nodes: seq<Node>, a: seq<int>, b: seq<int>)
    requires ParentsPrecede(nodes)
    ensures StackSize(nodes, a + b) == StackSize(nodes, a) + StackSize(nodes, b)
    decreases |b|
  {
    if b == [] {
      assert a + b == a;
    } else {
      assert (a + b)[..|a + b| - 1] == a + b[..|b| - 1];
      StackSizeConcat(nodes, a, b[..|b| - 1]);
    }
  }

  /** Popping `x` and pushing its children lowers the stack's total work by one. */
  lemma PopPushShrinks(nodes: seq<Node>, stack: seq<int>)
    requires ParentsPrecede(nodes) && stack != []
    ensures StackSize(nodes, stack[..|stack| - 1] + KidIds(nodes, stack[|stack| - 1])) < StackSize(nodes, stack)
  {
    var x := stack[|stack| - 1];
    StackSizeConcat(nodes, stack[..|stack| - 1], KidIds(nodes, x));
    SizeOfKidsIsStackSize(nodes, x, KidIds(nodes, x));
  }

  /** The ids the loop of `_gather_descendants` pops, in order, when its
      stack starts as `stack`: pop the top, record it, push its children. */
  function Traversal(nodes: seq<Node>, stack: seq<int>): seq<int>
    requires ParentsPrecede(nodes)
    decreases StackSize(nodes, stack)
  {
    if stack == [] then []
    else
      var x := stack[|stack| - 1];
      PopPushShrinks(nodes, stack);
      [x] + Traversal(nodes, stack[..|stack| - 1] + KidIds(nodes, x))
  }

  lemma KidIdsSnoc(a: seq<Node>, n: Node, p: int)
    ensures KidIds(a + [n], p) == KidIds(a, p) + (if ChildOf(n, p) then [n.id] else [])
  {
    if a != [] {
      assert (a + [n])[1..] == a[1..] + [n];
      KidIdsSnoc(a[1..], n, p);
    } else {
      assert [n][1..] == [];
    }
  }

  predicate Distinct(s: seq<int>)
  {
    forall i, j :: 0 <= i < j < |s| ==> s[i] != s[j]
  }

  /** The entries of a stack have pairwise disjoint subtrees. */
  predicate DisjointStack(nodes: seq<Node>, stack: seq<int>)
    requires ParentsPrecede(nodes)
  {
    forall i, j :: 0 <= i < j < |stack| ==> Subtree(nodes, stack[i]) !! Subtree(nodes, stack[j])
  }

  /** Pushing the children of a popped entry keeps the stack's subtrees disjoint. */
  lemma PopPushDisjoint(nodes: seq<Node>, stack: seq<int>)
    requires ParentsPrecede(nodes) && UniqueIds(nodes)
    requires stack != [] && DisjointStack(nodes, stack)
    ensures DisjointStack(nodes, stack[..|stack| - 1] + KidIds(nodes, stack[|stack| - 1]))
  {
    var x := stack[|stack| - 1];
    var front := stack[..|stack| - 1];
    var kids := KidIds(nodes, x);
    var next := front + kids;
    KidIdsExact(nodes, x);
    forall i, j | 0 <= i < j < |next| ensures Subtree(nodes, next[i]) !! Subtree(nodes, next[j]) {
      if j < |front| {
        assert next[i] == stack[i] && next[j] == stack[j];
      } else if i < |front| {
        assert next[i] == stack[i] && next[j] == kids[j - |front|];
        assert Subtree(nodes, stack[i]) !! Subtree(nodes, stack[|stack| - 1]);
        ChildSubtreeInside(nodes, x, next[j]);
      } else {
        assert next[i] == kids[i - |front|] && next[j] == kids[j - |front|];
        SiblingsDisjoint(nodes, x, next[i], next[j]);
      }
    }
  }

  /** Some entry of `stack` has `z` in its subtree. */
  predicate Covered(nodes: seq<Node>, stack: seq<int>, z: int)
    requires ParentsPrecede(nodes)
  {
    exists i :: 0 <= i < |stack| && z in Subtree(nodes, stack[i])
  }

  /** The stack after popping its top entry and pushing that entry's children. */
  function PopPush(nodes: seq<Node>, stack: seq<int>): seq<int>
    requires stack != []
  {
    stack[..|stack| - 1] + KidIds(nodes, stack[|stack| - 1])
  }

  lemma PopPushCoversForward(nodes: seq<Node>, stack: seq<int>, z: int)
    requires ParentsPrecede(nodes) && UniqueIds(nodes)
    requires stack != [] && Covered(nodes, PopPush(nodes, stack), z)
    ensures Covered(nodes, stack, z)
  {
    var x := stack[|stack| - 1];
    var front := stack[..|stack| - 1];
    var next := PopPush(nodes, stack);
    var i :| 0 <= i < |next| && z in Subtree(nodes, next[i]);
    if i < |front| {
      assert stack[i] == next[i];
    } else {
      assert next[i] in KidIds(nodes, x);
      ChildSubtreeInside(nodes, x, next[i]);
      assert z in Subtree(nodes, stack[|stack| - 1]);
    }
  }

  lemma PopPushCoversBackward(nodes: seq<Node>, stack: seq<int>, z: int)
    requires ParentsPrecede(nodes) && UniqueIds(nodes)
    requires stack != [] && Covered(nodes, stack, z) && z != stack[|stack| - 1]
    ensures Covered(nodes, PopPush(nodes, stack), z)
  {
    var x := stack[|stack| - 1];
    var front := stack[..|stack| - 1];
    var kids := KidIds(nodes, x);
    var next := PopPush(nodes, stack);
    var i :| 0 <= i < |stack| && z in Subtree(nodes, stack[i]);
    if i < |front| {
      assert next[i] == stack[i];
    } else {
      KidsCover(nodes, x, z);
      CoveredByTop(nodes, front, kids, z);
    }
  }

  /** A descendant of `x` other than `x` lies below one of its children. */
  lemma KidsCover(nodes: seq<Node>, x: int, z: int)
    requires ParentsPrecede(nodes) && UniqueIds(nodes)
    requires z in Subtree(nodes, x) && z != x
    ensures Covered(nodes, KidIds(nodes, x), z)
  {
    var kids := KidIds(nodes, x);
    SubtreeUnfold(nodes, x, z);
    var k :| k in kids && z in Subtree(nodes, k);
    var m :| 0 <= m < |kids| && kids[m] == k;
    assert z in Subtree(nodes, kids[m]);
  }

  lemma CoveredByTop(nodes: seq<Node>, front: seq<int>, top: seq<int>, z: int)
    requires ParentsPrecede(nodes) && Covered(nodes, top, z)
    ensures Covered(nodes, front + top, z)
  {
    var m :| 0 <= m < |top| && z in Subtree(nodes, top[m]);
    assert (front + top)[|front| + m] == top[m];
  }

  lemma PopPushExcludesPopped(nodes: seq<Node>, stack: seq<int>)
    requires ParentsPrecede(nodes) && UniqueIds(nodes)
    requires stack != [] && DisjointStack(nodes, stack)
    ensures !Covered(nodes, PopPush(nodes, stack), stack[|stack| - 1])
  {
    var x := stack[|stack| - 1];
    var front := stack[..|stack| - 1];
    var next := PopPush(nodes, stack);
    assert x in Subtree(nodes, x);
    forall i | 0 <= i < |next| ensures x !in Subtree(nodes, next[i]) {
      if i < |front| {
        assert next[i] == stack[i];
        assert Subtree(nodes, stack[i]) !! Subtree(nodes, stack[|stack| - 1]);
      } else {
        assert next[i] in KidIds(nodes, x);
        ChildSubtreeInside(nodes, x, next[i]);
      }
    }
  }

  lemma DistinctCons(x: int, rest: seq<int>)
    requires Distinct(rest) && x !in rest
    ensures Distinct([x] + rest)
  {
    forall i, j | 0 <= i < j < |[x] + rest| ensures ([x] + rest)[i] != ([x] + rest)[j] {
      if i == 0 {
        assert ([x] + rest)[j] == rest[j - 1];
      } else {
        assert ([x] + rest)[i] == rest[i - 1] && ([x] + rest)[j] == rest[j - 1];
      }
    }
  }

  /** The traversal visits exactly the subtrees of the stack's entries, each
      id once, provided those subtrees are disjoint. */
  lemma {:induction false} TraversalExact(nodes: seq<Node>, stack: seq<int>)
    requires ParentsPrecede(nodes) && UniqueIds(nodes)
    requires DisjointStack(nodes, stack)
    ensures forall z :: z in Traversal(nodes, stack) <==> Covered(nodes, stack, z)
    ensures Distinct(Traversal(nodes, stack))
    decreases StackSize(nodes, stack)
  {
    if stack != [] {
      var x := stack[|stack| - 1];
      var next := PopPush(nodes, stack);
      PopPushShrinks(nodes, stack);
      PopPushDisjoint(nodes, stack);
      TraversalExact(nodes, next);
      var rest := Traversal(nodes, next);
      assert Traversal(nodes, stack) == [x] + rest;
      assert x in Subtree(nodes, x);
      forall z ensures z in Traversal(nodes, stack) <==> Covered(nodes, stack, z) {
        if z in rest {
          PopPushCoversForward(nodes, stack, z);
        }
        if Covered(nodes, stack, z) && z != x {
          PopPushCoversBackward(nodes, stack, z);
        }
      }
      PopPushExcludesPopped(nodes, stack);
      DistinctCons(x, rest);
    }
  }

  /** Started from one id, the traversal visits exactly that id's subtree,
      each id once. */
  lemma TraversalIsSubtree(nodes: seq<Node>, t: int)
    requires ParentsPrecede(nodes) && UniqueIds(nodes)
    ensures forall z :: z in Traversal(nodes, [t]) <==> z in Subtree(nodes, t)
    ensures Distinct(Traversal(nodes, [t]))
  {
    TraversalExact(nodes, [t]);
    forall z ensures Covered(nodes, [t], z) <==> z in Subtree(nodes, t) {
      assert [t][0] == t;
    }
  }

  /** `_gather_descendants(flat_nodes, target_id)`. The result always starts
      with the target, even when no row has that id; on a table with unique
      ids it holds the target and all its transitive descendants, each once. */
  method GatherDescendants(nodes: seq<Node>, target: int) returns (ids: seq<int>)
    requires ParentsPrecede(nodes)
    ensures ids == Traversal(nodes, [target])
    ensures |ids| >= 1 && ids[0] == target
    ensures UniqueIds(nodes) ==> forall z :: z in ids <==> z in Subtree(nodes, target)
    ensures UniqueIds(nodes) ==> Distinct(ids)
  {
    // children_map: parent id -> child ids in table order
    var childrenMap: map<int, seq<NodeId>> := map[];
    var i := 0;
    while i < |nodes|
      invariant 0 <= i <= |nodes|
      invariant forall p :: p in childrenMap ==> childrenMap[p] == KidIds(nodes[..i], p)
      invariant forall p :: p !in childrenMap ==> KidIds(nodes[..i], p) == []
    {
      var n := nodes[i];
      assert nodes[..i + 1] == nodes[..i] + [n];
      forall p ensures KidIds(nodes[..i + 1], p) == KidIds(nodes[..i], p) + (if ChildOf(n, p) then [n.id] else []) {
        KidIdsSnoc(nodes[..i], n, p);
      }
      if n.parentId.Some? {
        var pid := n.parentId.value;
        var siblings := if pid in childrenMap then childrenMap[pid] else [];
        childrenMap := childrenMap[pid := siblings + [n.id]];
      }
      i := i + 1;
    }
    assert nodes[..|nodes|] == nodes;

    ids := [];
    var stack: seq<int> := [target];
    while stack != []
      invariant ids + Traversal(nodes, stack) == Traversal(nodes, [target])
      decreases StackSize(nodes, stack)
    {
      var cur := stack[|stack| - 1];
      PopPushShrinks(nodes, stack);
      var kids := if cur in childrenMap then childrenMap[cur] else [];
      assert Traversal(nodes, stack) == [cur] + Traversal(nodes, stack[..|stack| - 1] + kids);
      stack := stack[..|stack| - 1] + kids;
      ids := ids + [cur];
    }
    assert [target][..0] + KidIds(nodes, target) == KidIds(nodes, target);
    assert Traversal(nodes, [target]) == [target] + Traversal(nodes, KidIds(nodes, target));
    if UniqueIds(nodes) {
      TraversalIsSubtree(nodes, target);
    }
  }
}
