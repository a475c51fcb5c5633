/** `build_tree` (backend/main.py): the flat, id-ordered node list turned into
    a forest of nested nodes with `children`. */
module TreeBuild {
  import opened Wrappers
  import opened Models
  import opened Ancestry
  import opened Descendants

  /** A node dictionary extended with its nested `children`. */
  datatype Tree = Tree(node: Node, children: seq<Tree>)

  /** The rows naming `x` as parent, in input order. */
  function Kids(nodes: seq<Node>, x: int): (r: seq<Node>)
    ensures forall c :: c in r ==> c in nodes && ChildOf(c, x)
    ensures |r| == |KidIds(nodes, x)|
    ensures forall i :: 0 <= i < |r| ==> r[i].id == KidIds(nodes, x)[i]
  {
    if nodes == [] then []
    else if ChildOf(nodes[0], x) then [nodes[0]] + Kids(nodes[1..], x)
    else Kids(nodes[1..], x)
  }

  /** The rows of `rest` that are roots of the whole list `nodes`, in order. */
  function RootsOf(nodes: seq<Node>, rest: seq<Node>): (r: seq<Node>)
    ensures forall n :: n in r <==> n in rest && IsRoot(nodes, n)
  {
    if rest == [] then []
    else if IsRoot(nodes, rest[0]) then [rest[0]] + RootsOf(nodes, rest[1..])
    else RootsOf(nodes, rest[1..])
  }

  /** The nested node for row `n`: its children are built from the rows that
      name it as parent. */
  function Build(nodes: seq<Node>, n: Node): (t: Tree)
    requires ParentsPrecede(nodes) && n in nodes
    ensures t.node == n
    decreases Above(nodes, n.id), 1
  {
    Tree(n, BuildAll(nodes, n.id, Kids(nodes, n.id)))
  }

  function BuildAll(nodes: seq<Node>, bound: int, ks: seq<Node>): (ts: seq<Tree>)
    requires ParentsPrecede(nodes)
    requires forall k :: k in ks ==> k in nodes && bound < k.id
    ensures |ts| == |ks| && forall i :: 0 <= i < |ks| ==> ts[i].node == ks[i]
    decreases Above(nodes, bound), 0, |ks|
  {
    if ks == [] then []
    else
      assert ks[0].id in Ids(nodes);
      AboveShrinks(nodes, bound, ks[0].id);
      [Build(nodes, ks[0])] + BuildAll(nodes, bound, ks[1..])
  }

  /** `build_tree(nodes)`. The top level holds exactly the rows with no
      parent or with a parent missing from the list, in input order; such a
      row is never dropped. */
  function BuildTree(nodes: seq<Node>): (roots: seq<Tree>)
    requires ParentsPrecede(nodes)
    ensures forall i :: 0 <= i < |roots| ==> roots[i].node in nodes && IsRoot(nodes, roots[i].node)
    ensures forall n :: n in nodes && IsRoot(nodes, n) ==> exists i :: 0 <= i < |roots| && roots[i].node == n
  {
    var rs := RootsOf(nodes, nodes);
    var roots := BuildAll(nodes, -1, rs);
    assert forall i :: 0 <= i < |roots| ==> roots[i].node in rs;
    forall n | n in nodes && IsRoot(nodes, n) ensures exists i :: 0 <= i < |roots| && roots[i].node == n {
      var i :| 0 <= i < |rs| && rs[i] == n;
      assert roots[i].node == n;
    }
    roots
  }

  /** The nodes of a tree in pre-order. */
  function Flatten(t: Tree): seq<Node>
  {
    [t.node] + FlattenAll(t.children)
  }

  function FlattenAll(ts: seq<Tree>): seq<Node>
  {
    if ts == [] then [] else Flatten(ts[0]) + FlattenAll(ts[1..])
  }

  // ---------------------------------------------------------------------
  // Every row appears exactly once

  lemma IdsConcat(a: seq<Node>, b: seq<Node>)
    ensures Ids(a + b) == Ids(a) + Ids(b)
  {
    assert forall n :: n in a + b <==> n in a || n in b;
  }

  lemma UniqueConcat(a: seq<Node>, b: seq<Node>)
    requires UniqueIds(a) && UniqueIds(b) && Ids(a) !! Ids(b)
    ensures UniqueIds(a + b)
  {
    forall i, j | 0 <= i < j < |a + b| ensures (a + b)[i].id != (a + b)[j].id {
      if j < |a| {
        assert (a + b)[i] == a[i] && (a + b)[j] == a[j];
      } else if i < |a| {
        assert (a + b)[i] == a[i] && (a + b)[j] == b[j - |a|];
        assert a[i].id in Ids(a) && b[j - |a|].id in Ids(b);
      } else {
        assert (a + b)[i] == b[i - |a|] && (a + b)[j] == b[j - |a|];
      }
    }
  }

  /** The subtrees of the given rows' ids are pairwise disjoint. */
  predicate DisjointRows(nodes: seq<Node>, ks: seq<Node>)
    requires ParentsPrecede(nodes)
  {
    forall i, j :: 0 <= i < j < |ks| ==> Subtree(nodes, ks[i].id) !! Subtree(nodes, ks[j].id)
  }

  /** Some row of `ks` has `z` in its subtree. */
  predicate CoveredByRows(nodes: seq<Node>, ks: seq<Node>, z: int)
    requires ParentsPrecede(nodes)
  {
    exists i :: 0 <= i < |ks| && z in Subtree(nodes, ks[i].id)
  }

  /** The children of one row have disjoint subtrees. */
  lemma KidsDisjoint(nodes: seq<Node>, n: Node)
    requires ParentsPrecede(nodes) && UniqueIds(nodes)
    ensures DisjointRows(nodes, Kids(nodes, n.id))
  {
    var ks := Kids(nodes, n.id);
    var kids := KidIds(nodes, n.id);
    KidIdsExact(nodes, n.id);
    forall i, j | 0 <= i < j < |ks| ensures Subtree(nodes, ks[i].id) !! Subtree(nodes, ks[j].id) {
      assert ks[i].id == kids[i] && ks[j].id == kids[j];
      SiblingsDisjoint(nodes, n.id, kids[i], kids[j]);
    }
  }

  /** The subtree of a row is the row plus the subtrees of its children,
      and the row lies in none of theirs. */
  lemma KidsCoverSubtree(nodes: seq<Node>, n: Node, z: int)
    requires ParentsPrecede(nodes) && UniqueIds(nodes) && n in nodes
    ensures z in Subtree(nodes, n.id) <==> z == n.id || CoveredByRows(nodes, Kids(nodes, n.id), z)
    ensures !CoveredByRows(nodes, Kids(nodes, n.id), n.id)
  {
    var ks := Kids(nodes, n.id);
    var kids := KidIds(nodes, n.id);
    assert n.id in Ids(nodes);
    SubtreeUnfold(nodes, n.id, z);
    if CoveredByRows(nodes, ks, z) {
      var i :| 0 <= i < |ks| && z in Subtree(nodes, ks[i].id);
      assert ks[i].id in kids;
    }
    if z != n.id && z in Subtree(nodes, n.id) {
      var k :| k in kids && z in Subtree(nodes, k);
      var i :| 0 <= i < |kids| && kids[i] == k;
      assert ks[i].id == k;
    }
    if CoveredByRows(nodes, ks, n.id) {
      var i :| 0 <= i < |ks| && n.id in Subtree(nodes, ks[i].id);
      assert ks[i].id in kids;
      ChildSubtreeInside(nodes, n.id, ks[i].id);
    }
  }

  /** The tree built for row `n` holds rows of the list only, and exactly the
      subtree of `n`, each id once. */
  lemma {:induction false} BuildExact(nodes: seq<Node>, n: Node)
    requires ParentsPrecede(nodes) && UniqueIds(nodes) && n in nodes
    ensures forall x :: x in Flatten(Build(nodes, n)) ==> x in nodes
    ensures forall z: int :: z in Ids(Flatten(Build(nodes, n))) <==> z in Subtree(nodes, n.id)
    ensures UniqueIds(Flatten(Build(nodes, n)))
    decreases Above(nodes, n.id), 1
  {
    var ks := Kids(nodes, n.id);
    KidsDisjoint(nodes, n);
    BuildAllExact(nodes, n.id, ks);
    var below := FlattenAll(BuildAll(nodes, n.id, ks));
    assert Flatten(Build(nodes, n)) == [n] + below;
    IdsConcat([n], below);
    forall z: int ensures z in Ids([n] + below) <==> z in Subtree(nodes, n.id) {
      KidsCoverSubtree(nodes, n, z);
    }
    KidsCoverSubtree(nodes, n, n.id);
    UniqueConcat([n], below);
  }

  lemma {:induction false} BuildAllExact(nodes: seq<Node>, bound: int, ks: seq<Node>)
    requires ParentsPrecede(nodes) && UniqueIds(nodes)
    requires forall k :: k in ks ==> k in nodes && bound < k.id
    requires DisjointRows(nodes, ks)
    ensures forall x :: x in FlattenAll(BuildAll(nodes, bound, ks)) ==> x in nodes
    ensures forall z: int :: z in Ids(FlattenAll(BuildAll(nodes, bound, ks))) <==> CoveredByRows(nodes, ks, z)
    ensures UniqueIds(FlattenAll(BuildAll(nodes, bound, ks)))
    decreases Above(nodes, bound), 0, |ks|
  {
    if ks != [] {
      assert ks[0].id in Ids(nodes);
      AboveShrinks(nodes, bound, ks[0].id);
      BuildExact(nodes, ks[0]);
      DisjointRowsTail(nodes, ks);
      BuildAllExact(nodes, bound, ks[1..]);
      var head := Flatten(Build(nodes, ks[0]));
      var tail := FlattenAll(BuildAll(nodes, bound, ks[1..]));
      assert FlattenAll(BuildAll(nodes, bound, ks)) == head + tail;
      IdsConcat(head, tail);
      forall z: int ensures z in Ids(head + tail) <==> CoveredByRows(nodes, ks, z) {
        CoveredByRowsCons(nodes, ks, z);
      }
      assert Ids(head) !! Ids(tail);
      UniqueConcat(head, tail);
    }
  }

  lemma DisjointRowsTail(nodes: seq<Node>, ks: seq<Node>)
    requires ParentsPrecede(nodes) && ks != [] && DisjointRows(nodes, ks)
    ensures DisjointRows(nodes, ks[1..])
  {
    forall i, j | 0 <= i < j < |ks[1..]| ensures Subtree(nodes, ks[1..][i].id) !! Subtree(nodes, ks[1..][j].id) {
      assert ks[1..][i] == ks[i + 1] && ks[1..][j] == ks[j + 1];
    }
  }

  lemma CoveredByRowsCons(nodes: seq<Node>, ks: seq<Node>, z: int)
    requires ParentsPrecede(nodes) && ks != []
    ensures CoveredByRows(nodes, ks, z) <==> z in Subtree(nodes, ks[0].id) || CoveredByRows(nodes, ks[1..], z)
  {
    if CoveredByRows(nodes, ks[1..], z) {
      var i :| 0 <= i < |ks[1..]| && z in Subtree(nodes, ks[1..][i].id);
      assert ks[1..][i] == ks[i + 1];
    }
    if CoveredByRows(nodes, ks, z) {
      var i :| 0 <= i < |ks| && z in Subtree(nodes, ks[i].id);
      if i > 0 {
        assert ks[1..][i - 1] == ks[i];
      }
    }
  }

  /** Rows of a list with unique ids are told apart by their ids. */
  lemma SameIdSameRow(nodes: seq<Node>, a: Node, b: Node)
    requires UniqueIds(nodes) && a in nodes && b in nodes && a.id == b.id
    ensures a == b
  {
    LookupUnique(nodes, a);
    LookupUnique(nodes, b);
  }

  /** A list with unique ids holds each of its rows exactly once. */
  lemma {:induction false} UniqueMultiset(s: seq<Node>, x: Node)
    requires UniqueIds(s)
    ensures multiset(s)[x] == if x in s then 1 else 0
  {
    if s != [] {
      UniqueTail(s);
      UniqueMultiset(s[1..], x);
      assert s == [s[0]] + s[1..];
      if x == s[0] {
        assert x !in s[1..];
      }
    }
  }

  /** `build_tree` on a list with unique ids and acyclic parent links: the
      forest holds every input row exactly once, as a root or inside exactly
      one `children` list, with all its fields, and nothing else. */
  lemma EveryRowOnce(nodes: seq<Node>)
    requires ParentsPrecede(nodes) && UniqueIds(nodes)
    ensures multiset(FlattenAll(BuildTree(nodes))) == multiset(nodes)
  {
    var rs := RootsOf(nodes, nodes);
    var flat := FlattenAll(BuildTree(nodes));
    assert forall k :: k in rs ==> k in nodes && -1 < k.id;
    assert DisjointRows(nodes, rs) by {
      RootsOfUnique(nodes, nodes);
      forall i, j | 0 <= i < j < |rs| ensures Subtree(nodes, rs[i].id) !! Subtree(nodes, rs[j].id) {
        RootsDisjoint(nodes, rs[i], rs[j]);
      }
    }
    BuildAllExact(nodes, -1, rs);
    forall z: int ensures z in Ids(flat) <==> z in Ids(nodes) {
      if z in Ids(nodes) {
        RootAbove(nodes, z);
        var r :| r in nodes && IsRoot(nodes, r) && AncOrSelf(nodes, r.id, z);
        var i :| 0 <= i < |rs| && rs[i] == r;
        assert z in Subtree(nodes, rs[i].id);
      }
    }
    forall x ensures multiset(flat)[x] == multiset(nodes)[x] {
      UniqueMultiset(flat, x);
      UniqueMultiset(nodes, x);
      if x in nodes {
        assert x.id in Ids(flat);
        var y :| y in flat && y.id == x.id;
        SameIdSameRow(nodes, x, y);
      }
    }
  }

  lemma {:induction false} RootsOfUnique(nodes: seq<Node>, rest: seq<Node>)
    requires UniqueIds(rest)
    ensures UniqueIds(RootsOf(nodes, rest))
  {
    if rest != [] {
      UniqueTail(rest);
      RootsOfUnique(nodes, rest[1..]);
      if IsRoot(nodes, rest[0]) {
        var tail := RootsOf(nodes, rest[1..]);
        assert Ids([rest[0]]) == {rest[0].id};
        assert Ids(tail) <= Ids(rest[1..]);
        UniqueConcat([rest[0]], tail);
      }
    }
  }

  // ---------------------------------------------------------------------
  // Nesting

  /** At every depth of `t`, the `children` list holds the trees of exactly
      the rows naming the node as parent, in input order. */
  predicate WellNested(nodes: seq<Node>, t: Tree)
  {
    && |t.children| == |Kids(nodes, t.node.id)|
    && (forall i :: 0 <= i < |t.children| ==> t.children[i].node == Kids(nodes, t.node.id)[i])
    && (forall c :: c in t.children ==> WellNested(nodes, c))
  }

  /** A row is among the filtered children exactly when it names `x` as parent. */
  lemma {:induction false} KidsComplete(nodes: seq<Node>, x: int, c: Node)
    ensures c in Kids(nodes, x) <==> c in nodes && ChildOf(c, x)
  {
    if nodes != [] {
      KidsComplete(nodes[1..], x, c);
      assert c in nodes <==> c == nodes[0] || c in nodes[1..];
    }
  }

  /** In a well-nested tree each child names the node as parent, and every
      row naming the node as parent is one of its children. */
  lemma NestedMeansParent(nodes: seq<Node>, t: Tree)
    requires WellNested(nodes, t)
    ensures forall c :: c in t.children ==> c.node in nodes && ChildOf(c.node, t.node.id)
    ensures forall n :: n in nodes && ChildOf(n, t.node.id) ==> exists i :: 0 <= i < |t.children| && t.children[i].node == n
  {
    var ks := Kids(nodes, t.node.id);
    forall c | c in t.children ensures c.node in nodes && ChildOf(c.node, t.node.id) {
      var i :| 0 <= i < |t.children| && t.children[i] == c;
      assert c.node == ks[i] && ks[i] in ks;
    }
    forall n | n in nodes && ChildOf(n, t.node.id) ensures exists i :: 0 <= i < |t.children| && t.children[i].node == n {
      KidsComplete(nodes, t.node.id, n);
      var i :| 0 <= i < |ks| && ks[i] == n;
      assert t.children[i].node == n;
    }
  }

  lemma {:induction false} BuildNests(nodes: seq<Node>, n: Node)
    requires ParentsPrecede(nodes) && n in nodes
    ensures WellNested(nodes, Build(nodes, n))
    decreases Above(nodes, n.id), 1
  {
    BuildAllNests(nodes, n.id, Kids(nodes, n.id));
  }

  lemma {:induction false} BuildAllNests(nodes: seq<Node>, bound: int, ks: seq<Node>)
    requires ParentsPrecede(nodes)
    requires forall k :: k in ks ==> k in nodes && bound < k.id
    ensures forall t :: t in BuildAll(nodes, bound, ks) ==> WellNested(nodes, t)
    decreases Above(nodes, bound), 0, |ks|
  {
    if ks != [] {
      assert ks[0].id in Ids(nodes);
      AboveShrinks(nodes, bound, ks[0].id);
      BuildNests(nodes, ks[0]);
      BuildAllNests(nodes, bound, ks[1..]);
    }
  }

  /** `build_tree` puts every row into its parent's `children` list, at
      every depth of the forest: each tree it returns is well nested. */
  lemma ForestWellNested(nodes: seq<Node>)
    requires ParentsPrecede(nodes)
    ensures forall t :: t in BuildTree(nodes) ==> WellNested(nodes, t)
  {
    var rs := RootsOf(nodes, nodes);
    assert forall k :: k in rs ==> k in nodes && -1 < k.id;
    BuildAllNests(nodes, -1, rs);
  }

  // ---------------------------------------------------------------------
  // Order

  /** Every `children` list of the tree is in increasing id order. */
  predicate ChildrenInOrder(t: Tree)
  {
    && (forall i, j :: 0 <= i < j < |t.children| ==> t.children[i].node.id < t.children[j].node.id)
    && (forall c :: c in t.children ==> ChildrenInOrder(c))
  }

  /** In a sorted list the head's id is below every later id. */
  lemma SortedHeadBelow(nodes: seq<Node>)
    requires SortedById(nodes) && nodes != []
    ensures SortedById(nodes[1..])
    ensures forall c :: c in nodes[1..] ==> nodes[0].id < c.id
  {
    forall c | c in nodes[1..] ensures nodes[0].id < c.id {
      var i :| 0 <= i < |nodes[1..]| && nodes[1..][i] == c;
      assert nodes[i + 1] == c;
    }
  }

  lemma SortedCons(h: Node, tail: seq<Node>)
    requires SortedById(tail) && forall c :: c in tail ==> h.id < c.id
    ensures SortedById([h] + tail)
  {
    var s := [h] + tail;
    forall i, j | 0 <= i < j < |s| ensures s[i].id < s[j].id {
      assert s[j] == tail[j - 1] && s[j] in tail;
      if i > 0 { assert s[i] == tail[i - 1]; }
    }
  }

  lemma {:induction false} FilterKeepsOrder(nodes: seq<Node>, x: int)
    requires SortedById(nodes)
    ensures SortedById(Kids(nodes, x))
  {
    if nodes != [] {
      SortedHeadBelow(nodes);
      FilterKeepsOrder(nodes[1..], x);
      if ChildOf(nodes[0], x) {
        SortedCons(nodes[0], Kids(nodes[1..], x));
      }
    }
  }

  lemma {:induction false} RootsKeepOrder(nodes: seq<Node>, rest: seq<Node>)
    requires SortedById(rest)
    ensures SortedById(RootsOf(nodes, rest))
  {
    if rest != [] {
      SortedHeadBelow(rest);
      RootsKeepOrder(nodes, rest[1..]);
      if IsRoot(nodes, rest[0]) {
        SortedCons(rest[0], RootsOf(nodes, rest[1..]));
      }
    }
  }

  lemma {:induction false} BuildKeepsOrder(nodes: seq<Node>, n: Node)
    requires ParentsPrecede(nodes) && SortedById(nodes) && n in nodes
    ensures ChildrenInOrder(Build(nodes, n))
    decreases Above(nodes, n.id), 1
  {
    FilterKeepsOrder(nodes, n.id);
    BuildAllKeepsOrder(nodes, n.id, Kids(nodes, n.id));
  }

  lemma {:induction false} BuildAllKeepsOrder(nodes: seq<Node>, bound: int, ks: seq<Node>)
    requires ParentsPrecede(nodes) && SortedById(nodes)
    requires forall k :: k in ks ==> k in nodes && bound < k.id
    ensures forall t :: t in BuildAll(nodes, bound, ks) ==> ChildrenInOrder(t)
    decreases Above(nodes, bound), 0, |ks|
  {
    if ks != [] {
      assert ks[0].id in Ids(nodes);
      AboveShrinks(nodes, bound, ks[0].id);
      BuildKeepsOrder(nodes, ks[0]);
      BuildAllKeepsOrder(nodes, bound, ks[1..]);
    }
  }

  /** On an id-ordered list (as `get_tree` passes it) the roots and every
      `children` list keep increasing id order, i.e. the input order. */
  lemma ForestInInputOrder(nodes: seq<Node>)
    requires ParentsPrecede(nodes) && SortedById(nodes)
    ensures forall i, j :: 0 <= i < j < |BuildTree(nodes)| ==> BuildTree(nodes)[i].node.id < BuildTree(nodes)[j].node.id
    ensures forall t :: t in BuildTree(nodes) ==> ChildrenInOrder(t)
  {
    RootsKeepOrder(nodes, nodes);
    var rs := RootsOf(nodes, nodes);
    assert forall k :: k in rs ==> k in nodes && -1 < k.id;
    BuildAllKeepsOrder(nodes, -1, rs);
  }
}
