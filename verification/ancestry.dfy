/** Parent links of a flat node table read as a forest: who is whose
    ancestor, the children of an id in table order, and the subtree of an id.
    This is the reference against which the tree assembler
    (`build_tree`) and the descendant collector (`_gather_descendants`) of
    backend/main.py are proved. */
module Ancestry {
  import opened Wrappers
  import opened Models

  /** The row `n` names `x` as its parent. */
  predicate ChildOf(n: Node, x: int)
  {
    n.parentId.Some? && n.parentId.value == x
  }

  /** The parent id of the row with id `x`, if that row exists and has one. */
  function ParentOf(nodes: seq<Node>, x: int): (r: Option<NodeId>)
    ensures r.Some? ==> x in Ids(nodes)
    ensures ParentsPrecede(nodes) && r.Some? ==> r.value < x
  {
    match Lookup(nodes, x)
    case None => None
    case Some(n) => n.parentId
  }

  /** `a` is `x` itself or is reached from `x` by following parent links.
      A parent id that is missing from the table ends the chain. */
  predicate AncOrSelf(nodes: seq<Node>, a: int, x: int)
    requires ParentsPrecede(nodes)
    decreases if x < 0 then 0 else x + 1
  {
    x == a || (ParentOf(nodes, x).Some? && AncOrSelf(nodes, a, ParentOf(nodes, x).value))
  }

  /** The subtree of `t`: `t` itself and every row that has `t` as an ancestor. */
  function Subtree(nodes: seq<Node>, t: int): set<int>
    requires ParentsPrecede(nodes)
  {
    set x: int | x in Ids(nodes) + {t} && AncOrSelf(nodes, t, x)
  }

  /** The ids of the rows whose parent is `x`, in table order
      (`children_map[x]` of `_gather_descendants`). */
  function KidIds(nodes: seq<Node>, x: int): (r: seq<NodeId>)
    ensures forall k :: k in r ==> k in Ids(nodes)
    ensures ParentsPrecede(nodes) ==> forall k :: k in r ==> x < k
    ensures |r| <= |nodes|
  {
    if nodes == [] then []
    else
      var rest := KidIds(nodes[1..], x);
      assert Ids(nodes) == {nodes[0].id} + Ids(nodes[1..]) by {
        assert nodes == [nodes[0]] + nodes[1..];
      }
      if ChildOf(nodes[0], x) then [nodes[0].id] + rest else rest
  }

  lemma UniqueTail(nodes: seq<Node>)
    requires UniqueIds(nodes) && nodes != []
    ensures UniqueIds(nodes[1..])
    ensures nodes[0].id !in Ids(nodes[1..])
  {
    forall a, b | 0 <= a < b < |nodes[1..]| ensures nodes[1..][a].id != nodes[1..][b].id {
      assert nodes[1..][a] == nodes[a + 1] && nodes[1..][b] == nodes[b + 1];
    }
  }

  /** With unique ids, the children list of `x` holds each child once, and
      holds exactly the rows whose parent is `x`. */
  lemma {:induction false} KidIdsExact(nodes: seq<Node>, x: int)
    requires UniqueIds(nodes)
    ensures forall i, j :: 0 <= i < j < |KidIds(nodes, x)| ==> KidIds(nodes, x)[i] != KidIds(nodes, x)[j]
    ensures forall k :: k in KidIds(nodes, x) <==> ParentOf(nodes, k) == Some(x)
  {
    if nodes != [] {
      UniqueTail(nodes);
      KidIdsExact(nodes[1..], x);
      var rest := KidIds(nodes[1..], x);
      var h := nodes[0];
      forall k ensures k in KidIds(nodes, x) <==> ParentOf(nodes, k) == Some(x) {
        if k == h.id {
          assert Lookup(nodes, k) == Some(h);
          assert k !in rest;
        } else {
          assert Lookup(nodes, k) == Lookup(nodes[1..], k);
        }
      }
    }
  }

  // ---------------------------------------------------------------------
  // Facts about the ancestor relation

  lemma {:induction false} AncAtMost(nodes: seq<Node>, a: int, x: int)
    requires ParentsPrecede(nodes)
    requires AncOrSelf(nodes, a, x)
    ensures a <= x
    decreases if x < 0 then 0 else x + 1
  {
    if x != a {
      AncAtMost(nodes, a, ParentOf(nodes, x).value);
    }
  }

  lemma {:induction false} AncTrans(nodes: seq<Node>, a: int, b: int, x: int)
    requires ParentsPrecede(nodes)
    requires AncOrSelf(nodes, a, b) && AncOrSelf(nodes, b, x)
    ensures AncOrSelf(nodes, a, x)
    decreases if x < 0 then 0 else x + 1
  {
    if x != b {
      AncTrans(nodes, a, b, ParentOf(nodes, x).value);
    }
  }

  /** The ancestors of a row form a chain: two of them are comparable. */
  lemma {:induction false} AncChain(nodes: seq<Node>, a: int, b: int, x: int)
    requires ParentsPrecede(nodes)
    requires AncOrSelf(nodes, a, x) && AncOrSelf(nodes, b, x)
    ensures AncOrSelf(nodes, a, b) || AncOrSelf(nodes, b, a)
    decreases if x < 0 then 0 else x + 1
  {
    if x != a && x != b {
      AncChain(nodes, a, b, ParentOf(nodes, x).value);
    }
  }

  /** The subtrees of two different children of the same id are disjoint. */
  lemma SiblingsDisjoint(nodes: seq<Node>, x: int, k1: int, k2: int)
    requires ParentsPrecede(nodes)
    requires ParentOf(nodes, k1) == Some(x) && ParentOf(nodes, k2) == Some(x) && k1 != k2
    ensures Subtree(nodes, k1) !! Subtree(nodes, k2)
  {
    forall z | z in Subtree(nodes, k1) && z in Subtree(nodes, k2) ensures false {
      AncChain(nodes, k1, k2, z);
      if AncOrSelf(nodes, k1, k2) {
        AncAtMost(nodes, k1, x);
      } else {
        AncAtMost(nodes, k2, x);
      }
    }
  }

  /** A strict descendant of `x` lies in the subtree of exactly the child of
      `x` on its parent chain. */
  lemma {:induction false} DescendantViaChild(nodes: seq<Node>, x: int, z: int)
    requires ParentsPrecede(nodes) && UniqueIds(nodes)
    requires z != x && AncOrSelf(nodes, x, z)
    ensures exists k :: k in KidIds(nodes, x) && AncOrSelf(nodes, k, z)
    decreases if z < 0 then 0 else z + 1
  {
    KidIdsExact(nodes, x);
    var p := ParentOf(nodes, z).value;
    if p == x {
      assert z in KidIds(nodes, x) && AncOrSelf(nodes, z, z);
    } else {
      DescendantViaChild(nodes, x, p);
      var k :| k in KidIds(nodes, x) && AncOrSelf(nodes, k, p);
      assert AncOrSelf(nodes, k, z);
    }
  }

  /** A child's subtree lies inside its parent's subtree, without the parent. */
  lemma ChildSubtreeInside(nodes: seq<Node>, x: int, k: int)
    requires ParentsPrecede(nodes) && UniqueIds(nodes)
    requires k in KidIds(nodes, x)
    ensures Subtree(nodes, k) <= Subtree(nodes, x)
    ensures x !in Subtree(nodes, k)
  {
    KidIdsExact(nodes, x);
    assert AncOrSelf(nodes, x, k);
    forall z | z in Subtree(nodes, k) ensures z in Subtree(nodes, x) {
      AncTrans(nodes, x, k, z);
      if z == k { assert k in Ids(nodes); }
    }
    if x in Subtree(nodes, k) {
      AncAtMost(nodes, k, x);
    }
  }

  /** The subtree of `x` is `x` plus the subtrees of its children. */
  lemma SubtreeUnfold(nodes: seq<Node>, x: int, z: int)
    requires ParentsPrecede(nodes) && UniqueIds(nodes)
    ensures z in Subtree(nodes, x) <==> z == x || exists k :: k in KidIds(nodes, x) && z in Subtree(nodes, k)
  {
    if z in Subtree(nodes, x) && z != x {
      DescendantViaChild(nodes, x, z);
      var k :| k in KidIds(nodes, x) && AncOrSelf(nodes, k, z);
      assert z in Ids(nodes);
      assert z in Subtree(nodes, k);
    }
    if exists k :: k in KidIds(nodes, x) && z in Subtree(nodes, k) {
      var k :| k in KidIds(nodes, x) && z in Subtree(nodes, k);
      ChildSubtreeInside(nodes, x, k);
    }
  }

  // ---------------------------------------------------------------------
  // Roots

  /** `build_tree`'s root rule: no parent, or a parent missing from the list. */
  predicate IsRoot(nodes: seq<Node>, n: Node)
  {
    n.parentId.None? || n.parentId.value !in Ids(nodes)
  }

  /** Every row lies in the subtree of some root row. */
  lemma {:induction false} RootAbove(nodes: seq<Node>, x: NodeId)
    requires ParentsPrecede(nodes) && UniqueIds(nodes)
    requires x in Ids(nodes)
    ensures exists r :: r in nodes && IsRoot(nodes, r) && AncOrSelf(nodes, r.id, x)
    decreases x
  {
    var n :| n in nodes && n.id == x;
    LookupUnique(nodes, n);
    if IsRoot(nodes, n) {
      assert AncOrSelf(nodes, n.id, x);
    } else {
      var p := n.parentId.value;
      assert ParentOf(nodes, x) == Some(p);
      RootAbove(nodes, p);
      var r :| r in nodes && IsRoot(nodes, r) && AncOrSelf(nodes, r.id, p);
      assert AncOrSelf(nodes, r.id, x);
    }
  }

  /** The subtrees of two different root rows are disjoint. */
  lemma RootsDisjoint(nodes: seq<Node>, r1: Node, r2: Node)
    requires ParentsPrecede(nodes) && UniqueIds(nodes)
    requires r1 in nodes && r2 in nodes && IsRoot(nodes, r1) && IsRoot(nodes, r2) && r1 != r2
    ensures Subtree(nodes, r1.id) !! Subtree(nodes, r2.id)
  {
    LookupUnique(nodes, r1);
    LookupUnique(nodes, r2);
    forall z | z in Subtree(nodes, r1.id) && z in Subtree(nodes, r2.id) ensures false {
      AncChain(nodes, r1.id, r2.id, z);
      if AncOrSelf(nodes, r1.id, r2.id) {
        assert r1.id != r2.id;
        RootHasNoAncestor(nodes, r2, r1.id);
      } else {
        RootHasNoAncestor(nodes, r1, r2.id);
      }
    }
  }

  /** Nothing present in the table is a strict ancestor of a root row. */
  lemma RootHasNoAncestor(nodes: seq<Node>, r: Node, a: int)
    requires ParentsPrecede(nodes) && UniqueIds(nodes)
    requires r in nodes && IsRoot(nodes, r) && a in Ids(nodes) && a != r.id
    ensures !AncOrSelf(nodes, a, r.id)
  {
    LookupUnique(nodes, r);
    if r.parentId.Some? {
      var p := r.parentId.value;
      assert ParentOf(nodes, p).None?;
    }
  }
}
