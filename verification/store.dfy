/** The node table as a state machine: the `chat`, `clear_all`,
    `clear_subtree` and `startup` handlers of backend/main.py acting on the
    rows of `memory_nodes`, kept in id order. The language model is an
    oracle: `generate` stands for the completion call of `generate_response`
    and `completion` for the one of `summarize_node`. */
module Store {
  import opened Wrappers
  import opened Text
  import opened Models
  import opened Llm
  import opened Context
  import opened Ancestry
  import opened Descendants
  import opened Schema

  /** One row of a valid table: a positive id, a summary within the limit,
      and either no parent and depth 0, or a present parent with a smaller
      id and a depth one less. */
  predicate RowValid(rows: seq<Node>, n: Node)
  {
    && n.id >= 1
    && (n.summary.Some? ==> |n.summary.value| <= SummaryLimit)
    && match n.parentId
       case None => n.depth == 0
       case Some(pid) => pid < n.id && Lookup(rows, pid).Some? && n.depth == Lookup(rows, pid).value.depth + 1
  }

  /** The invariant of the table: rows in increasing id order, each valid. */
  predicate Valid(rows: seq<Node>)
  {
    SortedById(rows) && forall n :: n in rows ==> RowValid(rows, n)
  }

  lemma ValidParentsPrecede(rows: seq<Node>)
    requires Valid(rows)
    ensures ParentsPrecede(rows) && UniqueIds(rows)
    ensures forall n :: n in rows && n.parentId.Some? ==> n.parentId.value in Ids(rows)
  {
    SortedIsUnique(rows);
  }

  /** In a valid table a child's depth is one more than its parent's. */
  lemma ValidDepth(rows: seq<Node>, n: Node, p: Node)
    requires Valid(rows) && n in rows && p in rows && ChildOf(n, p.id)
    ensures n.depth == p.depth + 1
  {
    SortedIsUnique(rows);
    assert RowValid(rows, n);
    LookupUnique(rows, p);
  }

  /** The id the database gives the next row: one more than the largest id,
      1 for an empty table. */
  function FreshId(rows: seq<Node>): (id: NodeId)
    requires SortedById(rows)
    ensures id >= 1
    ensures forall n :: n in rows ==> n.id < id
  {
    if rows == [] then 1 else rows[|rows| - 1].id + 1
  }

  /** `parent.summary = s; db.commit()`: the row with that id gets the
      summary, every other row and every other column stays as it was. */
  function SetSummary(rows: seq<Node>, id: int, s: string): (r: seq<Node>)
    ensures |r| == |rows|
    ensures forall i :: 0 <= i < |rows| ==> r[i].id == rows[i].id && r[i].parentId == rows[i].parentId && r[i].depth == rows[i].depth
    ensures forall i :: 0 <= i < |rows| ==> r[i] == if rows[i].id == id then rows[i].(summary := Some(s)) else rows[i]
  {
    seq(|rows|, i requires 0 <= i < |rows| => if rows[i].id == id then rows[i].(summary := Some(s)) else rows[i])
  }

  lemma SameShapeSameIds(rows: seq<Node>, r: seq<Node>)
    requires |r| == |rows|
    requires forall i :: 0 <= i < |rows| ==> r[i].id == rows[i].id
    ensures Ids(r) == Ids(rows)
  {
    forall x | x in Ids(r) ensures x in Ids(rows) {
      var n :| n in r && n.id == x;
      var i :| 0 <= i < |r| && r[i] == n;
      assert rows[i] in rows;
    }
    forall x | x in Ids(rows) ensures x in Ids(r) {
      var n :| n in rows && n.id == x;
      var i :| 0 <= i < |rows| && rows[i] == n;
      assert r[i] in r;
    }
  }

  /** Writing a summary within the limit keeps the table valid. */
  lemma SetSummaryValid(rows: seq<Node>, id: int, s: string)
    requires Valid(rows) && |s| <= SummaryLimit
    ensures Valid(SetSummary(rows, id, s))
    ensures Ids(SetSummary(rows, id, s)) == Ids(rows)
  {
    var r := SetSummary(rows, id, s);
    SameShapeSameIds(rows, r);
    forall n | n in r ensures RowValid(r, n) {
      var i :| 0 <= i < |r| && r[i] == n;
      SetSummaryRow(rows, id, s, i);
    }
  }

  lemma SetSummaryRow(rows: seq<Node>, id: int, s: string, i: int)
    requires Valid(rows) && |s| <= SummaryLimit && 0 <= i < |rows|
    ensures RowValid(SetSummary(rows, id, s), SetSummary(rows, id, s)[i])
  {
    var r := SetSummary(rows, id, s);
    assert RowValid(rows, rows[i]) by { assert rows[i] in rows; }
    if rows[i].parentId.Some? {
      var p := Lookup(rows, rows[i].parentId.value).value;
      var j :| 0 <= j < |rows| && rows[j] == p;
      assert SortedById(r);
      SortedIsUnique(r);
      LookupUnique(r, r[j]);
    }
  }

  /** Appending a row with a larger id than every row, no summary, and a
      parent that is present with the depth one less (or no parent and
      depth 0) keeps the table valid. */
  lemma AppendValid(rows: seq<Node>, n: Node)
    requires Valid(rows)
    requires forall m :: m in rows ==> m.id < n.id
    requires RowValid(rows, n)
    ensures Valid(rows + [n])
  {
    var r := rows + [n];
    forall m | m in r ensures RowValid(r, m) {
      if m == n {
        AppendRow(rows, n, n);
      } else {
        assert m in rows;
        AppendRow(rows, n, m);
      }
    }
  }

  lemma AppendRow(rows: seq<Node>, n: Node, m: Node)
    requires Valid(rows)
    requires forall x :: x in rows ==> x.id < n.id
    requires m in rows || m == n
    requires RowValid(rows, m)
    ensures RowValid(rows + [n], m)
  {
    if m.parentId.Some? {
      var p := Lookup(rows, m.parentId.value).value;
      var r := rows + [n];
      assert SortedById(r) by {
        forall i, j | 0 <= i < j < |r| ensures r[i].id < r[j].id {
          if j == |rows| { assert r[i] in rows; }
        }
      }
      SortedIsUnique(r);
      assert p in r;
      LookupUnique(r, p);
    }
  }

  datatype ApiError = NotFound(detail: string)
  datatype ChatRequest = ChatRequest(message: string, parentId: Option<int>)
  datatype ChatResponse = ChatResponse(response: string, nodeId: NodeId, parentId: Option<int>, depth: int)

  /** `POST /chat`: look up the parent (404 if absent), pick the parent
      context, ask the generator, and append the new row. The result is the
      table after the request and the response body. */
  function Chat(rows: seq<Node>, req: ChatRequest, completion: Option<string>,
                generate: string -> Reply, now: Instant): (r: Result<(seq<Node>, ChatResponse), ApiError>)
    requires Valid(rows)
    ensures r.Failure? <==> req.parentId.Some? && req.parentId.value !in Ids(rows)
    ensures r.Success? ==>
      var (after, resp) := r.value;
      && |after| == |rows| + 1
      && after[|rows|] == Node(resp.nodeId, req.message, resp.response, None, req.parentId, resp.depth, Some(now))
      && (forall n :: n in rows ==> n.id < resp.nodeId)
      && resp.parentId == req.parentId
    ensures r.Success? && req.parentId.None? ==>
      r.value.1.depth == 0 && r.value.1.response == GenerateResponse(generate(req.message))
    ensures r.Success? && req.parentId.Some? ==>
      var p := Lookup(rows, req.parentId.value).value;
      && r.value.1.depth == p.depth + 1
      && r.value.1.response == GenerateResponse(generate(Forwarded(req.message, Some(ChooseContext(p, completion).text))))
  {
    match req.parentId
    case None =>
      var response := GenerateResponse(generate(req.message));
      var node := NewRow(FreshId(rows), req.message, response, None, Some(0), Some(now), now);
      Success((rows + [node], ChatResponse(response, node.id, None, 0)))
    case Some(pid) =>
      match Lookup(rows, pid)
      case None => Failure(NotFound("parent_id not found"))
      case Some(parent) =>
        var choice := ChooseContext(parent, completion);
        var rows1 := WriteBack(rows, parent.id, choice);
        var response := GenerateResponse(generate(Forwarded(req.message, Some(choice.text))));
        var node := NewRow(FreshId(rows1), req.message, response, Some(parent.id), Some(parent.depth + 1), Some(now), now);
        Success((rows1 + [node], ChatResponse(response, node.id, req.parentId, parent.depth + 1)))
  }

  /** The table after the context choice: a freshly generated summary is
      stored on the parent, the other choices write nothing. */
  function WriteBack(rows: seq<Node>, id: int, choice: Choice): (r: seq<Node>)
    requires SortedById(rows)
    ensures r == if choice.Fresh? then SetSummary(rows, id, choice.text) else rows
    ensures |r| == |rows| && SortedById(r) && FreshId(r) == FreshId(rows)
  {
    if choice.Fresh? then
      var r := SetSummary(rows, id, choice.text);
      assert forall i, j :: 0 <= i < j < |r| ==> r[i].id == rows[i].id && r[j].id == rows[j].id;
      r
    else rows
  }

  /** The summary-cache effect of `chat`: the old rows are untouched except
      when the parent's raw text is too long and it has no usable summary;
      then exactly the parent row gets a newly generated summary. */
  lemma ChatSummaryEffect(rows: seq<Node>, req: ChatRequest, completion: Option<string>,
                          generate: string -> Reply, now: Instant)
    requires Valid(rows)
    requires Chat(rows, req, completion, generate, now).Success?
    ensures var after := Chat(rows, req, completion, generate, now).value.0;
      if req.parentId.Some?
         && |QaText(Lookup(rows, req.parentId.value).value.prompt, Lookup(rows, req.parentId.value).value.response)| > ContextLimit
         && NeedsSummary(Lookup(rows, req.parentId.value).value.summary)
      then
        var p := Lookup(rows, req.parentId.value).value;
        after[..|rows|] == SetSummary(rows, p.id, SummarizeNode(p.prompt, p.response, completion))
      else
        after[..|rows|] == rows
  {
    var after := Chat(rows, req, completion, generate, now).value.0;
    if req.parentId.Some? {
      var p := Lookup(rows, req.parentId.value).value;
      if p.summary.Some? {
        StripEmptyIffBlank(p.summary.value);
      }
      var choice := ChooseContext(p, completion);
      var rows1 := if choice.Fresh? then SetSummary(rows, p.id, choice.text) else rows;
      assert after[..|rows|] == rows1;
    } else {
      assert after[..|rows|] == rows;
    }
  }

  /** `chat` keeps the table invariant: the new row's parent exists, its
      depth is one more than the parent's, its id is the largest, and a
      summary written on the way is within the limit. */
  lemma ChatPreservesValid(rows: seq<Node>, req: ChatRequest, completion: Option<string>,
                           generate: string -> Reply, now: Instant)
    requires Valid(rows)
    requires Chat(rows, req, completion, generate, now).Success?
    ensures Valid(Chat(rows, req, completion, generate, now).value.0)
  {
    var after := Chat(rows, req, completion, generate, now).value.0;
    var node := after[|rows|];
    if req.parentId.None? {
      assert after == rows + [node];
      AppendValid(rows, node);
    } else {
      var p := Lookup(rows, req.parentId.value).value;
      var choice := ChooseContext(p, completion);
      var rows1 := if choice.Fresh? then SetSummary(rows, p.id, choice.text) else rows;
      assert after == rows1 + [node];
      if choice.Fresh? {
        SetSummaryValid(rows, p.id, choice.text);
      }
      var i :| 0 <= i < |rows| && rows[i] == p;
      AppendChildValid(rows1, rows1[i], node);
    }
  }

  /** Appending a fresh child of an existing row keeps the table valid. */
  lemma AppendChildValid(rows: seq<Node>, p: Node, n: Node)
    requires Valid(rows) && p in rows
    requires n.id == FreshId(rows) && n.summary.None?
    requires n.parentId == Some(p.id) && n.depth == p.depth + 1
    ensures Valid(rows + [n])
  {
    SortedIsUnique(rows);
    LookupUnique(rows, p);
    assert RowValid(rows, p);
    AppendValid(rows, n);
  }

  /** A second request on the same parent reuses the summary the first one
      generated, with no further summarisation, unless that summary came
      back blank. */
  lemma SiblingReusesSummary(rows: seq<Node>, req: ChatRequest, completion: Option<string>,
                             generate: string -> Reply, now: Instant, completion2: Option<string>)
    requires Valid(rows)
    requires Chat(rows, req, completion, generate, now).Success? && req.parentId.Some?
    ensures var after := Chat(rows, req, completion, generate, now).value.0;
      var p := Lookup(rows, req.parentId.value).value;
      var p2 := Lookup(after, req.parentId.value).value;
      var made := ChooseContext(p, completion);
      made.Fresh? && !IsBlank(made.text) ==> ChooseContext(p2, completion2) == Cached(made.text)
  {
    var after := Chat(rows, req, completion, generate, now).value.0;
    var p := Lookup(rows, req.parentId.value).value;
    var made := ChooseContext(p, completion);
    if made.Fresh? && !IsBlank(made.text) {
      ChatSummaryEffect(rows, req, completion, generate, now);
      ChatPreservesValid(rows, req, completion, generate, now);
      if p.summary.Some? {
        StripEmptyIffBlank(p.summary.value);
      }
      var i :| 0 <= i < |rows| && rows[i] == p;
      assert after[i] == after[..|rows|][i];
      assert after[i] == p.(summary := Some(made.text));
      SortedIsUnique(after);
      LookupUnique(after, after[i]);
    }
  }

  // ---------------------------------------------------------------------
  // Seeding, clearing

  const DefaultPrompt: string := "Hi"

  /** The default root: prompt "Hi", the generator's answer to it, no parent. */
  function SeedRoot(rows: seq<Node>, generate: string -> Reply, now: Instant): (n: Node)
    requires SortedById(rows)
  {
    NewRow(FreshId(rows), DefaultPrompt, GenerateResponse(generate(DefaultPrompt)), None, Some(0), Some(now), now)
  }

  /** `DELETE /clear`: every row is deleted and one default root is inserted. */
  function ClearAll(rows: seq<Node>, generate: string -> Reply, now: Instant): (after: seq<Node>)
    ensures |after| == 1
    ensures after[0].prompt == DefaultPrompt && after[0].parentId.None? && after[0].depth == 0
    ensures after[0].response == GenerateResponse(generate(DefaultPrompt))
    ensures Valid(after)
  {
    [SeedRoot([], generate, now)]
  }

  /** Rows whose id is not listed, in their order (`DELETE ... WHERE id IN ids`). */
  function DeleteIds(rows: seq<Node>, ids: seq<int>): (r: seq<Node>)
    ensures forall n :: n in r <==> n in rows && n.id !in ids
    ensures |r| <= |rows|
  {
    if rows == [] then []
    else if rows[0].id in ids then DeleteIds(rows[1..], ids)
    else [rows[0]] + DeleteIds(rows[1..], ids)
  }

  /** Deleting the same ids twice is the same as deleting them once. */
  lemma {:induction false} DeleteIdempotent(rows: seq<Node>, ids: seq<int>)
    ensures DeleteIds(DeleteIds(rows, ids), ids) == DeleteIds(rows, ids)
  {
    if rows != [] {
      DeleteIdempotent(rows[1..], ids);
      if rows[0].id !in ids {
        assert ([rows[0]] + DeleteIds(rows[1..], ids))[1..] == DeleteIds(rows[1..], ids);
      }
    }
  }

  lemma {:induction false} DeleteKeepsOrder(rows: seq<Node>, ids: seq<int>)
    requires SortedById(rows)
    ensures SortedById(DeleteIds(rows, ids))
  {
    if rows != [] {
      DeleteKeepsOrder(rows[1..], ids);
      var tail := DeleteIds(rows[1..], ids);
      forall c | c in tail ensures rows[0].id < c.id {
        var i :| 0 <= i < |rows[1..]| && rows[1..][i] == c;
        assert rows[i + 1] == c;
      }
      if rows[0].id !in ids {
        forall i, j | 0 <= i < j < |[rows[0]] + tail| ensures ([rows[0]] + tail)[i].id < ([rows[0]] + tail)[j].id {
          assert ([rows[0]] + tail)[j] == tail[j - 1];
          if i > 0 { assert ([rows[0]] + tail)[i] == tail[i - 1]; }
        }
      }
    }
  }

  /** What the database itself removes for `DELETE ... WHERE id IN ids` with
      the `ON DELETE CASCADE` parent key: the listed rows and, transitively,
      every row below them. `all` is the whole table the links refer to. */
  function CascadeDelete(all: seq<Node>, rows: seq<Node>, ids: seq<int>): (r: seq<Node>)
    requires ParentsPrecede(all)
  {
    if rows == [] then []
    else if exists i :: 0 <= i < |ids| && AncOrSelf(all, ids[i], rows[0].id) then CascadeDelete(all, rows[1..], ids)
    else [rows[0]] + CascadeDelete(all, rows[1..], ids)
  }

  /** `clear_subtree` as written: the 404 branch tests for an empty id list. */
  function ClearSubtreeAsWritten(rows: seq<Node>, target: int): (r: Result<(seq<Node>, seq<int>), ApiError>)
    requires ParentsPrecede(rows)
    ensures r.Success? ==> r.value.1 == Traversal(rows, [target]) && r.value.0 == DeleteIds(rows, r.value.1)
  {
    var ids := Traversal(rows, [target]);
    if ids == [] then Failure(NotFound("node not found"))
    else Success((DeleteIds(rows, ids), ids))
  }

  /** The 404 of `clear_subtree` can never be raised: the collected ids
      always start with the target. On a valid table an unknown id gives the
      reply `[target]` and deletes nothing. */
  lemma NotFoundUnreachable(rows: seq<Node>, target: int)
    requires ParentsPrecede(rows)
    ensures ClearSubtreeAsWritten(rows, target).Success?
    ensures Valid(rows) && target !in Ids(rows) ==> ClearSubtreeAsWritten(rows, target) == Success((rows, [target]))
  {
    assert [target][..0] + KidIds(rows, target) == KidIds(rows, target);
    assert Traversal(rows, [target]) == [target] + Traversal(rows, KidIds(rows, target));
    if Valid(rows) && target !in Ids(rows) {
      assert KidIds(rows, target) == [] by {
        if KidIds(rows, target) != [] {
          var k := KidIds(rows, target)[0];
          assert k in Ids(rows);
          var n :| n in rows && n.id == k;
          ValidParentsPrecede(rows);
          KidIdsExact(rows, target);
          LookupUnique(rows, n);
        }
      }
      assert Traversal(rows, [target]) == [target];
      NothingDeleted(rows, [target]);
    }
  }

  lemma {:induction false} NothingDeleted(rows: seq<Node>, ids: seq<int>)
    requires forall n :: n in rows ==> n.id !in ids
    ensures DeleteIds(rows, ids) == rows
  {
    if rows != [] {
      NothingDeleted(rows[1..], ids);
      assert rows == [rows[0]] + rows[1..];
    }
  }

  /** `clear_subtree` with the not-found check it evidently intends: 404
      exactly when no row has the target id. */
  function ClearSubtree(rows: seq<Node>, target: int): (r: Result<(seq<Node>, seq<int>), ApiError>)
    requires Valid(rows)
    ensures r.Failure? <==> target !in Ids(rows)
    ensures r.Success? ==> forall z :: z in r.value.1 <==> z in Subtree(rows, target)
    ensures r.Success? ==> forall n :: n in r.value.0 <==> n in rows && n.id !in Subtree(rows, target)
  {
    ValidParentsPrecede(rows);
    if target !in Ids(rows) then Failure(NotFound("node not found"))
    else
      var ids := Traversal(rows, [target]);
      TraversalIsSubtree(rows, target);
      Success((DeleteIds(rows, ids), ids))
  }

  /** Deleting a whole subtree leaves no orphan: the table stays valid. */
  lemma ClearSubtreePreservesValid(rows: seq<Node>, target: int)
    requires Valid(rows)
    requires ClearSubtree(rows, target).Success?
    ensures Valid(ClearSubtree(rows, target).value.0)
  {
    ValidParentsPrecede(rows);
    var after := ClearSubtree(rows, target).value.0;
    var ids := ClearSubtree(rows, target).value.1;
    DeleteKeepsOrder(rows, ids);
    forall n | n in after ensures RowValid(after, n) {
      assert RowValid(rows, n);
      if n.parentId.Some? {
        var p := Lookup(rows, n.parentId.value).value;
        ChildJoinsSubtree(rows, target, n);
        assert p in after;
        LookupUnique(after, p);
      }
    }
  }

  /** A row whose parent lies in a subtree lies in that subtree too. */
  lemma ChildJoinsSubtree(rows: seq<Node>, t: int, n: Node)
    requires ParentsPrecede(rows) && UniqueIds(rows)
    requires n in rows && n.parentId.Some?
    ensures n.parentId.value in Subtree(rows, t) ==> n.id in Subtree(rows, t)
  {
    LookupUnique(rows, n);
    if n.parentId.value in Subtree(rows, t) {
      assert ParentOf(rows, n.id) == Some(n.parentId.value);
      assert AncOrSelf(rows, t, n.id);
    }
  }

  /** The cascading foreign key removes nothing beyond the collected ids:
      they are already closed under "child of". */
  lemma CascadeAddsNothing(rows: seq<Node>, target: int)
    requires Valid(rows)
    ensures ParentsPrecede(rows)
    ensures CascadeDelete(rows, rows, Traversal(rows, [target])) == DeleteIds(rows, Traversal(rows, [target]))
  {
    ValidParentsPrecede(rows);
    var ids := Traversal(rows, [target]);
    TraversalIsSubtree(rows, target);
    forall x | x in Ids(rows) ensures (exists i :: 0 <= i < |ids| && AncOrSelf(rows, ids[i], x)) <==> x in ids {
      if x in ids {
        var i :| 0 <= i < |ids| && ids[i] == x;
        assert AncOrSelf(rows, ids[i], x);
      }
      if exists i :: 0 <= i < |ids| && AncOrSelf(rows, ids[i], x) {
        var i :| 0 <= i < |ids| && AncOrSelf(rows, ids[i], x);
        assert ids[i] in Subtree(rows, target);
        AncTrans(rows, target, ids[i], x);
        assert x in Subtree(rows, target);
      }
    }
    CascadeMatchesDelete(rows, rows, ids);
  }

  lemma {:induction false} CascadeMatchesDelete(all: seq<Node>, rows: seq<Node>, ids: seq<int>)
    requires ParentsPrecede(all)
    requires forall n :: n in rows ==> n.id in Ids(all)
    requires forall x :: x in Ids(all) ==> ((exists i :: 0 <= i < |ids| && AncOrSelf(all, ids[i], x)) <==> x in ids)
    ensures CascadeDelete(all, rows, ids) == DeleteIds(rows, ids)
  {
    if rows != [] {
      assert rows[0].id in Ids(all);
      CascadeMatchesDelete(all, rows[1..], ids);
    }
  }

  /** The row `"Hi"` is as deletable as any other by the backend: deleting
      the only root of a freshly cleared table leaves the table empty, and
      nothing reseeds it. */
  lemma ClearSubtreeCanEmptyTable(generate: string -> Reply, now: Instant)
    ensures var rows := ClearAll([], generate, now);
      ParentsPrecede(rows) && ClearSubtreeAsWritten(rows, 1) == Success(([], [1]))
  {
    var rows := ClearAll([], generate, now);
    assert rows[0].id == 1;
    assert KidIds(rows[1..], 1) == [];
    assert KidIds(rows, 1) == [];
    assert [1][..0] + KidIds(rows, 1) == [];
    assert Traversal(rows, [1]) == [1];
    assert DeleteIds(rows[1..], [1]) == [];
  }

  /** On a table holding the target, the handler as written and the
      corrected one behave identically. */
  lemma AsWrittenMatchesCorrected(rows: seq<Node>, target: int)
    requires Valid(rows) && target in Ids(rows)
    ensures ParentsPrecede(rows)
    ensures ClearSubtreeAsWritten(rows, target) == ClearSubtree(rows, target)
  {
    ValidParentsPrecede(rows);
    NotFoundUnreachable(rows, target);
  }

  /** `clear_subtree` as it runs keeps the table valid: an unknown id
      deletes nothing, and a present one removes its whole subtree. */
  lemma ClearSubtreeAsWrittenPreservesValid(rows: seq<Node>, target: int)
    requires Valid(rows)
    ensures ParentsPrecede(rows)
    ensures ClearSubtreeAsWritten(rows, target).Success?
    ensures Valid(ClearSubtreeAsWritten(rows, target).value.0)
  {
    ValidParentsPrecede(rows);
    NotFoundUnreachable(rows, target);
    if target in Ids(rows) {
      AsWrittenMatchesCorrected(rows, target);
      ClearSubtreePreservesValid(rows, target);
    }
  }

  // ---------------------------------------------------------------------
  // Startup

  datatype StartupError = SchemaFailure(error: SchemaError) | MissingTable

  /** `startup`: `init_db`, then a default root if the table is empty. */
  function Startup(db: Db, dropIfMismatch: bool, generate: string -> Reply, now: Instant): (r: Result<Db, StartupError>)
    requires db.nodes.Some? ==> SortedById(db.nodes.value)
    ensures r.Success? <==> InitDb(db, dropIfMismatch).Success? && InitDb(db, dropIfMismatch).value.nodes.Some?
    ensures r.Success? ==> r.value.nodes.Some? && |r.value.nodes.value| >= 1
    ensures r.Success? ==> InitDb(db, dropIfMismatch).Success? && InitDb(db, dropIfMismatch).value.nodes.Some? && r.value.versions == InitDb(db, dropIfMismatch).value.versions
    ensures r.Success? && InitDb(db, dropIfMismatch).value.nodes.value != [] ==> r.value == InitDb(db, dropIfMismatch).value
    ensures r.Success? && InitDb(db, dropIfMismatch).value.nodes.value == [] ==>
      && |r.value.nodes.value| == 1
      && r.value.nodes.value[0].prompt == DefaultPrompt
      && r.value.nodes.value[0].response == GenerateResponse(generate(DefaultPrompt))
      && r.value.nodes.value[0].parentId.None? && r.value.nodes.value[0].depth == 0
    ensures InitDb(db, dropIfMismatch).Failure? ==> r == Failure(SchemaFailure(InitDb(db, dropIfMismatch).error))
  {
    match InitDb(db, dropIfMismatch)
    case Failure(e) => Failure(SchemaFailure(e))
    case Success(db1) =>
      match db1.nodes
      case None => Failure(MissingTable)
      case Some(rows) =>
        if |rows| == 0 then Success(db1.(nodes := Some([SeedRoot([], generate, now)])))
        else Success(db1)
  }

  /** Starting on a table that is valid (or newly empty) leaves it valid. */
  lemma StartupPreservesValid(db: Db, dropIfMismatch: bool, generate: string -> Reply, now: Instant)
    requires db.nodes.Some? ==> Valid(db.nodes.value)
    requires Startup(db, dropIfMismatch, generate, now).Success?
    ensures Valid(Startup(db, dropIfMismatch, generate, now).value.nodes.value)
  {
  }
}
