/** The pure helpers of the two clients: the Streamlit client
    (frontend/app.py: `short_preview`, `find_node_by_id`) and the React client
    (App.jsx: `findNodeById`, `selectedNode`, the send and delete-branch
    guards; TreeNode.jsx: `preview`, `hasChildren`). Both read the nested
    JSON that `/tree` returns. */
module Frontend {
  import opened Wrappers
  import opened Text
  import opened Models
  import opened Ancestry
  import opened TreeBuild
  import opened Llm
  import opened Schema
  import opened Store

  // ---------------------------------------------------------------------
  // Previews

  /** The preview length used by both clients. */
  const PreviewLength: int := 40
  const Ellipsis: string := "..."
  const NoPrompt: string := "(no prompt)"

  /** `short_preview(text, length)`: the text itself when it fits, otherwise
      Python's `text[:length]` followed by an ellipsis. */
  function ShortPreview(text: string, length: int): (r: string)
    ensures |text| <= length ==> r == text
    ensures SliceTo(text, length) <= r
    ensures |text| > length ==> |r| >= |Ellipsis| && r[|r| - |Ellipsis|..] == Ellipsis
    ensures 0 <= length < |text| ==> |r| == length + |Ellipsis| && r[..length] == text[..length]
  {
    if |text| > length then SliceTo(text, length) + Ellipsis else text
  }

  /** `preview` of TreeNode.jsx: the placeholder for an empty prompt,
      otherwise `substring(0, 40)` with an ellipsis when something was cut. */
  function Preview(prompt: string): (r: string)
    ensures prompt == [] ==> r == NoPrompt
    ensures 0 < |prompt| <= PreviewLength ==> r == prompt
    ensures |prompt| > PreviewLength ==> r == prompt[..PreviewLength] + Ellipsis
  {
    if prompt == [] then NoPrompt
    else Take(prompt, PreviewLength as nat) + (if |prompt| > PreviewLength then Ellipsis else "")
  }

  /** The two clients label a node identically exactly when its prompt is
      non-empty: for the empty prompt the React client shows the placeholder
      and the Streamlit client shows the empty string. */
  lemma PreviewAgreesWithShortPreview(prompt: string)
    ensures Preview(prompt) == ShortPreview(prompt, PreviewLength) <==> prompt != []
  {
    if prompt == [] {
      assert ShortPreview(prompt, PreviewLength) == [];
      assert |NoPrompt| > 0;
    }
  }

  // ---------------------------------------------------------------------
  // The nested tree as the clients see it

  /** One node of the `/tree` JSON. Only the fields the helpers read are
      kept; `children` may be absent. */
  datatype View = View(id: int, prompt: string, parentId: Option<int>, children: Children)
  datatype Children = Missing | Present(list: seq<View>)

  /** `node.children || []` and `n.get('children', [])`. */
  function ChildList(v: View): (cs: seq<View>)
    ensures v.children.Present? ==> cs == v.children.list
    ensures v.children.Missing? ==> cs == []
  {
    match v.children
    case Missing => []
    case Present(list) => list
  }

  /** The JSON form of a tree assembled by `build_tree`. */
  function ToView(t: Tree): (v: View)
    ensures v.id == t.node.id && v.prompt == t.node.prompt && v.children.Present?
    ensures |ChildList(v)| == |t.children|
    ensures v.parentId.Some? <==> t.node.parentId.Some?
    ensures v.parentId.Some? ==> v.parentId.value == t.node.parentId.value
  {
    var parent: Option<int> := match t.node.parentId case None => None case Some(p) => Some(p);
    View(t.node.id, t.node.prompt, parent,
         Present(seq(|t.children|, i requires 0 <= i < |t.children| => ToView(t.children[i]))))
  }

  /** `hasChildren` of TreeNode.jsx: `children` present and non-empty. */
  predicate HasChildren(v: View)
  {
    v.children.Present? && |v.children.list| > 0
  }

  /** In the tree the backend serves, a node shows an expander exactly when
      some row of the table names it as parent. */
  lemma HasChildrenIffSomeChild(nodes: seq<Node>, n: Node)
    requires ParentsPrecede(nodes) && UniqueIds(nodes) && n in nodes
    ensures HasChildren(ToView(Build(nodes, n))) <==> exists c :: c in nodes && ChildOf(c, n.id)
  {
    var t := Build(nodes, n);
    assert |t.children| == |KidIds(nodes, n.id)|;
    KidIdsExact(nodes, n.id);
    if exists c :: c in nodes && ChildOf(c, n.id) {
      var c :| c in nodes && ChildOf(c, n.id);
      LookupUnique(nodes, c);
      assert ParentOf(nodes, c.id) == Some(n.id);
      assert c.id in KidIds(nodes, n.id);
    }
    if KidIds(nodes, n.id) != [] {
      var k := KidIds(nodes, n.id)[0];
      assert ParentOf(nodes, k) == Some(n.id);
      var c := Lookup(nodes, k).value;
      assert c in nodes && ChildOf(c, n.id);
    }
  }

  // ---------------------------------------------------------------------
  // Search

  /** `w` is `v` or lies below it. */
  predicate InTree(v: View, w: View)
    decreases v
  {
    w == v || (v.children.Present? && exists i :: 0 <= i < |v.children.list| && InTree(v.children.list[i], w))
  }

  /** `w` is one of the roots or lies below one. */
  predicate InForest(forest: seq<View>, w: View)
  {
    exists i :: 0 <= i < |forest| && InTree(forest[i], w)
  }

  /** Some node of the forest carries the id. */
  ghost predicate IdInForest(forest: seq<View>, id: int)
  {
    exists w :: InForest(forest, w) && w.id == id
  }

  /** No two different nodes of the forest share an id. */
  ghost predicate UniqueIn(forest: seq<View>)
  {
    forall a, b :: InForest(forest, a) && InForest(forest, b) && a.id == b.id ==> a == b
  }

  /** The nodes of `v` in pre-order: the node, then the subtree of each
      child in order (the order `render_node` lists them). */
  function PreOrder(v: View): seq<View>
    decreases v, 1
  {
    [v] + PreOrderFrom(v, 0)
  }

  function PreOrderFrom(v: View, i: nat): seq<View>
    requires i <= |ChildList(v)|
    decreases v, 0, |ChildList(v)| - i
  {
    if i == |ChildList(v)| then []
    else
      assert v.children.list[i] == ChildList(v)[i];
      PreOrder(v.children.list[i]) + PreOrderFrom(v, i + 1)
  }

  /** The pre-order of a forest: the roots' pre-orders one after another. */
  function ForestPreOrder(forest: seq<View>): seq<View>
  {
    if forest == [] then [] else PreOrder(forest[0]) + ForestPreOrder(forest[1..])
  }

  /** The reference search: the first entry of a flat list carrying the id. */
  function FirstMatch(s: seq<View>, id: int): (r: Option<View>)
    ensures r.Some? ==> r.value.id == id && exists k :: 0 <= k < |s| && s[k] == r.value && forall j :: 0 <= j < k ==> s[j].id != id
    ensures r.None? <==> forall j :: 0 <= j < |s| ==> s[j].id != id
  {
    if s == [] then None
    else if s[0].id == id then Some(s[0])
    else
      var r := FirstMatch(s[1..], id);
      assert forall j :: 1 <= j < |s| ==> s[j] == s[1..][j - 1];
      r
  }

  lemma {:induction false} FirstMatchConcat(a: seq<View>, b: seq<View>, id: int)
    ensures FirstMatch(a + b, id) == if FirstMatch(a, id).Some? then FirstMatch(a, id) else FirstMatch(b, id)
  {
    if a == [] {
      assert a + b == b;
    } else {
      assert (a + b)[1..] == a[1..] + b;
      FirstMatchConcat(a[1..], b, id);
    }
  }

  /** `findNodeById` on one node: the node itself, else the first match among
      its children in order. */
  function FindIn(v: View, id: int): (r: Option<View>)
    ensures r.Some? ==> r.value.id == id && InTree(v, r.value)
    ensures r.None? <==> forall w :: InTree(v, w) ==> w.id != id
    ensures r == FirstMatch(PreOrder(v), id)
    decreases v, 1
  {
    assert ([v] + PreOrderFrom(v, 0))[1..] == PreOrderFrom(v, 0);
    if v.id == id then Some(v) else FindAmong(v, 0, id)
  }

  /** The first match in the subtrees of the children of `v` from index `i` on. */
  function FindAmong(v: View, i: nat, id: int): (r: Option<View>)
    requires i <= |ChildList(v)|
    ensures r.Some? ==> r.value.id == id && exists j :: i <= j < |ChildList(v)| && InTree(ChildList(v)[j], r.value)
    ensures r.None? <==> forall j, w :: i <= j < |ChildList(v)| && InTree(ChildList(v)[j], w) ==> w.id != id
    ensures r == FirstMatch(PreOrderFrom(v, i), id)
    decreases v, 0, |ChildList(v)| - i
  {
    if i == |ChildList(v)| then None
    else
      assert v.children.list[i] == ChildList(v)[i];
      FirstMatchConcat(PreOrder(v.children.list[i]), PreOrderFrom(v, i + 1), id);
      match FindIn(v.children.list[i], id)
      case Some(found) => Some(found)
      case None => FindAmong(v, i + 1, id)
  }

  /** `findNodeById(tree, id)`: a pre-order search that checks a node before
      its children and an earlier root's subtree before a later root. */
  function FindFirst(forest: seq<View>, id: int): (r: Option<View>)
    ensures r.Some? ==> r.value.id == id && InForest(forest, r.value)
    ensures r.None? <==> !IdInForest(forest, id)
    ensures r == FirstMatch(ForestPreOrder(forest), id)
    ensures r.Some? ==> exists k :: 0 <= k < |ForestPreOrder(forest)| && ForestPreOrder(forest)[k] == r.value
                                    && forall j :: 0 <= j < k ==> ForestPreOrder(forest)[j].id != id
  {
    if forest == [] then None
    else
      FirstMatchConcat(PreOrder(forest[0]), ForestPreOrder(forest[1..]), id);
      match FindIn(forest[0], id)
      case Some(found) => Some(found)
      case None =>
        var rest := FindFirst(forest[1..], id);
        assert forall w :: InForest(forest, w) <==> InTree(forest[0], w) || InForest(forest[1..], w) by {
          forall w ensures InForest(forest, w) <==> InTree(forest[0], w) || InForest(forest[1..], w) {
            if InForest(forest, w) {
              var i :| 0 <= i < |forest| && InTree(forest[i], w);
              if i > 0 { assert forest[1..][i - 1] == forest[i]; }
            }
            if InForest(forest[1..], w) {
              var i :| 0 <= i < |forest[1..]| && InTree(forest[1..][i], w);
              assert forest[i + 1] == forest[1..][i];
            }
          }
        }
        rest
  }

  // Sizes, for the termination of the stack search

  function ViewSize(v: View): nat
    decreases v, 1
  {
    1 + SizeUpTo(v, |ChildList(v)|)
  }

  /** The sizes of the first `k` children of `v`, summed. */
  function SizeUpTo(v: View, k: nat): nat
    requires k <= |ChildList(v)|
    decreases v, 0, k
  {
    if k == 0 then 0
    else
      assert v.children.list[k - 1] == ChildList(v)[k - 1];
      SizeUpTo(v, k - 1) + ViewSize(v.children.list[k - 1])
  }

  function ForestSize(vs: seq<View>): nat
  {
    if vs == [] then 0 else ForestSize(vs[..|vs| - 1]) + ViewSize(vs[|vs| - 1])
  }

  lemma {:induction false} SizeUpToIsForestSize(v: View, k: nat)
    requires k <= |ChildList(v)|
    ensures SizeUpTo(v, k) == ForestSize(ChildList(v)[..k])
  {
    if k > 0 {
      SizeUpToIsForestSize(v, k - 1);
      assert ChildList(v)[..k][..k - 1] == ChildList(v)[..k - 1];
    }
  }

  lemma {:induction false} ForestSizeConcat(a: seq<View>, b: seq<View>)
    ensures ForestSize(a + b) == ForestSize(a) + ForestSize(b)
    decreases |b|
  {
    if b == [] {
      assert a + b == a;
    } else {
      ForestSizeConcat(a, b[..|b| - 1]);
      assert (a + b)[..|a + b| - 1] == a + b[..|b| - 1];
      assert (a + b)[|a + b| - 1] == b[|b| - 1];
    }
  }

  /** Replacing the top of the stack by its children shrinks the stack's size. */
  lemma PopPushSmaller(stack: seq<View>)
    requires stack != []
    ensures ForestSize(stack[..|stack| - 1] + ChildList(stack[|stack| - 1])) < ForestSize(stack)
  {
    var n := stack[|stack| - 1];
    ForestSizeConcat(stack[..|stack| - 1], ChildList(n));
    SizeUpToIsForestSize(n, |ChildList(n)|);
    assert ChildList(n)[..|ChildList(n)|] == ChildList(n);
  }

  lemma {:induction false} InTreeTrans(a: View, b: View, c: View)
    requires InTree(a, b) && InTree(b, c)
    ensures InTree(a, c)
    decreases a
  {
    if a != b {
      var i :| 0 <= i < |a.children.list| && InTree(a.children.list[i], b);
      InTreeTrans(a.children.list[i], b, c);
    }
  }

  /** The stack step keeps what is searchable: nodes below the popped node
      are below one of its children. */
  lemma PopPushKeepsIds(stack: seq<View>, id: int)
    requires stack != [] && stack[|stack| - 1].id != id
    ensures IdInForest(stack, id) ==> IdInForest(stack[..|stack| - 1] + ChildList(stack[|stack| - 1]), id)
  {
    var n := stack[|stack| - 1];
    var next := stack[..|stack| - 1] + ChildList(n);
    if IdInForest(stack, id) {
      var w :| InForest(stack, w) && w.id == id;
      var i :| 0 <= i < |stack| && InTree(stack[i], w);
      if i < |stack| - 1 {
        assert next[i] == stack[i];
      } else {
        assert w != n;
        var k :| 0 <= k < |n.children.list| && InTree(n.children.list[k], w);
        assert next[|stack| - 1 + k] == n.children.list[k];
      }
      assert InForest(next, w);
    }
  }

  /** The stack step keeps every entry inside the searched forest. */
  lemma PopPushStaysInside(tree: seq<View>, stack: seq<View>)
    requires stack != []
    requires forall j :: 0 <= j < |stack| ==> InForest(tree, stack[j])
    ensures var next := stack[..|stack| - 1] + ChildList(stack[|stack| - 1]);
      forall j :: 0 <= j < |next| ==> InForest(tree, next[j])
  {
    var n := stack[|stack| - 1];
    var next := stack[..|stack| - 1] + ChildList(n);
    forall j | 0 <= j < |next| ensures InForest(tree, next[j]) {
      if j < |stack| - 1 {
        assert next[j] == stack[j];
      } else {
        var c := n.children.list[j - (|stack| - 1)];
        assert next[j] == c;
        var i :| 0 <= i < |tree| && InTree(tree[i], n);
        assert InTree(n, c);
        InTreeTrans(tree[i], n, c);
      }
    }
  }

  /** `find_node_by_id(tree, node_id)`: a stack search that pops the last
      entry and pushes its children. It finds a node with the id exactly
      when one exists; with unique ids it finds the same node as the
      pre-order search of the React client. */
  method FindByStack(tree: seq<View>, id: int) returns (r: Option<View>)
    ensures r.Some? ==> r.value.id == id && InForest(tree, r.value)
    ensures r.None? <==> !IdInForest(tree, id)
    ensures UniqueIn(tree) ==> r == FindFirst(tree, id)
  {
    var stack := tree;
    while stack != []
      invariant forall j :: 0 <= j < |stack| ==> InForest(tree, stack[j])
      invariant IdInForest(tree, id) ==> IdInForest(stack, id)
      decreases ForestSize(stack)
    {
      var n := stack[|stack| - 1];
      if n.id == id {
        r := Some(n);
        AgreesWhenUnique(tree, id, r);
        return;
      }
      PopPushSmaller(stack);
      PopPushKeepsIds(stack, id);
      PopPushStaysInside(tree, stack);
      stack := stack[..|stack| - 1] + ChildList(n);
    }
    r := None;
  }

  lemma AgreesWhenUnique(tree: seq<View>, id: int, r: Option<View>)
    requires r.Some? && r.value.id == id && InForest(tree, r.value)
    ensures UniqueIn(tree) ==> r == FindFirst(tree, id)
  {
  }

  // ---------------------------------------------------------------------
  // Selection and guards of the React client

  /** `selectedNodeId ? findNodeById(tree, selectedNodeId) : null`; the
      falsy ids are null and 0. */
  function SelectedNode(tree: seq<View>, selectedId: Option<int>): (r: Option<View>)
    ensures r.Some? ==> selectedId.Some? && selectedId.value != 0 && r.value.id == selectedId.value && InForest(tree, r.value)
    ensures r.None? <==> selectedId.None? || selectedId.value == 0 || !IdInForest(tree, selectedId.value)
    ensures selectedId.Some? && selectedId.value != 0 ==> r == FindFirst(tree, selectedId.value)
  {
    match selectedId
    case None => None
    case Some(id) => if id == 0 then None else FindFirst(tree, id)
  }

  /** The body of the `/chat` request `handleSendMessage` sends: nothing for
      a blank message or when no node is selected, otherwise the message as
      typed (not trimmed) with the selected node as parent. */
  function SendRequest(message: string, selected: Option<View>): (r: Option<(string, int)>)
    ensures r.Some? <==> selected.Some? && exists i :: 0 <= i < |message| && !IsSpace(message[i])
    ensures r.Some? ==> r.value == (message, selected.value.id)
  {
    StripEmptyIffBlank(message);
    if Strip(message) == [] then None
    else match selected
      case None => None
      case Some(v) => Some((message, v.id))
  }

  /** The delete-branch guard: refuse a node without a parent whose prompt
      is the default `"Hi"`. */
  predicate CanDeleteBranch(v: View)
  {
    !(v.parentId.None? && v.prompt == "Hi")
  }

  /** The guard protects the root that `DELETE /clear` seeds. */
  lemma GuardRefusesClearedRoot(rows: seq<Node>, generate: string -> Reply, now: Instant)
    ensures var after := ClearAll(rows, generate, now);
      ParentsPrecede(after) && !CanDeleteBranch(ToView(Build(after, after[0])))
  {
    var after := ClearAll(rows, generate, now);
    ValidParentsPrecede(after);
  }

  /** The guard protects the root that `startup` seeds into an empty table. */
  lemma GuardRefusesStartupRoot(db: Db, dropIfMismatch: bool, generate: string -> Reply, now: Instant)
    requires db.nodes.Some? ==> SortedById(db.nodes.value)
    requires Startup(db, dropIfMismatch, generate, now).Success?
    requires InitDb(db, dropIfMismatch).value.nodes.value == []
    ensures var rows := Startup(db, dropIfMismatch, generate, now).value.nodes.value;
      ParentsPrecede(rows) && !CanDeleteBranch(ToView(Build(rows, rows[0])))
  {
    var rows := Startup(db, dropIfMismatch, generate, now).value.nodes.value;
    assert rows[0].parentId.None?;
  }

  /** Whatever branch the guard lets through, `DELETE /clear/{id}` leaves
      every parentless `"Hi"` row in place: such a row is the root of its
      own tree, so it lies in no other row's subtree. */
  lemma GuardKeepsDefaultRoot(rows: seq<Node>, root: Node, n: Node)
    requires Valid(rows) && ParentsPrecede(rows)
    requires root in rows && root.parentId.None? && root.prompt == DefaultPrompt
    requires n in rows && CanDeleteBranch(ToView(Build(rows, n)))
    ensures ClearSubtreeAsWritten(rows, n.id).Success?
    ensures root in ClearSubtreeAsWritten(rows, n.id).value.0
  {
    ValidParentsPrecede(rows);
    assert n.id != root.id by {
      if n.id == root.id {
        LookupUnique(rows, n);
        LookupUnique(rows, root);
      }
    }
    AsWrittenMatchesCorrected(rows, n.id);
    RootHasNoAncestor(rows, root, n.id);
  }

  /** Any other row passes the guard, and the backend then removes it with
      its whole subtree. */
  lemma GuardAllowsOtherRows(rows: seq<Node>, n: Node)
    requires Valid(rows) && ParentsPrecede(rows)
    requires n in rows && (n.parentId.Some? || n.prompt != DefaultPrompt)
    ensures CanDeleteBranch(ToView(Build(rows, n)))
    ensures ClearSubtreeAsWritten(rows, n.id).Success?
    ensures forall m :: m in ClearSubtreeAsWritten(rows, n.id).value.0 <==> m in rows && m.id !in Subtree(rows, n.id)
  {
    ValidParentsPrecede(rows);
    AsWrittenMatchesCorrected(rows, n.id);
  }
}
