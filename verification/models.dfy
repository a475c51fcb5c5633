/** The `memory_nodes` row (backend/models.py) and the flat-table vocabulary
    shared by the tree assembler, the descendant collector and the store. */
module Models {
  import opened Wrappers

  /** Row ids are positive integers handed out by the database. */
  type NodeId = nat

  /** A creation time; its calendar meaning and ISO formatting are opaque. */
  datatype Instant = Instant(micros: int)

  /** One conversation node: `prompt` and `response` are required text,
      `summary`, `parentId` and `timestamp` are nullable. */
  datatype Node = Node(
    id: NodeId,
    prompt: string,
    response: string,
    summary: Option<string>,
    parentId: Option<NodeId>,
    depth: int,
    timestamp: Option<Instant>)

  /** Column default for `depth`. */
  const DefaultDepth: int := 0

  /** A new row as the ORM fills it in: an omitted `depth` becomes 0 and an
      omitted `timestamp` becomes the clock reading `now`. */
  function NewRow(id: NodeId, prompt: string, response: string, parentId: Option<NodeId>,
                  depth: Option<int>, timestamp: Option<Instant>, now: Instant): (n: Node)
    ensures n.id == id && n.prompt == prompt && n.response == response
    ensures n.summary == None && n.parentId == parentId
    ensures depth.None? ==> n.depth == 0
    ensures depth.Some? ==> n.depth == depth.value
    ensures timestamp.None? ==> n.timestamp == Some(now)
    ensures timestamp.Some? ==> n.timestamp == timestamp
  {
    Node(id, prompt, response, None, parentId, depth.GetOr(DefaultDepth), Some(timestamp.GetOr(now)))
  }

  /** Omitting `depth` and `timestamp` is the same as passing 0 and the
      clock reading explicitly; when both are passed the clock is not read. */
  lemma ColumnDefaults(id: NodeId, prompt: string, response: string, parentId: Option<NodeId>,
                       now: Instant, other: Instant)
    ensures NewRow(id, prompt, response, parentId, None, None, now)
         == NewRow(id, prompt, response, parentId, Some(0), Some(now), other)
  {
  }

  /** A JSON value of the serialised row. */
  datatype Field = IntField(i: int) | TextField(s: string) | NullField

  function OptText(o: Option<string>): Field
  {
    match o
    case Some(s) => TextField(s)
    case None => NullField
  }

  function OptInt(o: Option<NodeId>): Field
  {
    match o
    case Some(i) => IntField(i)
    case None => NullField
  }

  const DictKeys: set<string> := {"id", "prompt", "response", "summary", "parent_id", "depth", "timestamp"}

  /** `to_dict`: the seven columns by name; `iso` is the opaque timestamp formatter. */
  function ToDict(n: Node, iso: Instant -> string): (d: map<string, Field>)
    ensures d.Keys == DictKeys
    ensures d["id"] == IntField(n.id) && d["depth"] == IntField(n.depth)
    ensures d["prompt"] == TextField(n.prompt) && d["response"] == TextField(n.response)
    ensures d["summary"] == (if n.summary.None? then NullField else TextField(n.summary.value))
    ensures d["parent_id"] == (if n.parentId.None? then NullField else IntField(n.parentId.value))
    ensures d["timestamp"] == (if n.timestamp.None? then NullField else TextField(iso(n.timestamp.value)))
  {
    map[
      "id" := IntField(n.id),
      "prompt" := TextField(n.prompt),
      "response" := TextField(n.response),
      "summary" := OptText(n.summary),
      "parent_id" := OptInt(n.parentId),
      "depth" := IntField(n.depth),
      "timestamp" := if n.timestamp.None? then NullField else TextField(iso(n.timestamp.value))
    ]
  }

  /** `to_dict` loses nothing of the first six columns: two rows with the same
      dictionary agree on id, prompt, response, summary, parent and depth, and
      on whether a timestamp is present. */
  lemma ToDictKeepsColumns(a: Node, b: Node, iso: Instant -> string)
    requires ToDict(a, iso) == ToDict(b, iso)
    ensures a.id == b.id && a.prompt == b.prompt && a.response == b.response
    ensures a.summary == b.summary && a.parentId == b.parentId && a.depth == b.depth
    ensures a.timestamp.None? <==> b.timestamp.None?
  {
    var da, db := ToDict(a, iso), ToDict(b, iso);
    assert da["id"] == db["id"] && da["prompt"] == db["prompt"] && da["response"] == db["response"];
    assert da["summary"] == db["summary"] && da["parent_id"] == db["parent_id"] && da["depth"] == db["depth"];
    assert da["timestamp"] == db["timestamp"];
  }

  // ---------------------------------------------------------------------
  // Flat tables

  /** The ids present in a flat list of rows. */
  function Ids(nodes: seq<Node>): set<NodeId>
  {
    set n | n in nodes :: n.id
  }

  /** No two rows share an id (the primary key). */
  predicate UniqueIds(nodes: seq<Node>)
  {
    forall i, j :: 0 <= i < j < |nodes| ==> nodes[i].id != nodes[j].id
  }

  /** Ids strictly increase along the list (`ORDER BY id` on a primary key). */
  predicate SortedById(nodes: seq<Node>)
  {
    forall i, j :: 0 <= i < j < |nodes| ==> nodes[i].id < nodes[j].id
  }

  /** Every parent id is smaller than its child's id. This holds of the
      table: a parent must exist when its child is inserted, and a new row's
      id exceeds every existing one. It rules out cycles in parent links. */
  predicate ParentsPrecede(nodes: seq<Node>)
  {
    forall n :: n in nodes && n.parentId.Some? ==> n.parentId.value < n.id
  }

  /** The first row with the given id (`query.filter(id == x).first()`). */
  function Lookup(nodes: seq<Node>, id: int): (r: Option<Node>)
    ensures r.Some? ==> r.value in nodes && r.value.id == id
    ensures r.None? <==> id !in Ids(nodes)
  {
    if nodes == [] then None
    else if nodes[0].id == id then Some(nodes[0])
    else
      var r := Lookup(nodes[1..], id);
      assert Ids(nodes) == {nodes[0].id} + Ids(nodes[1..]) by {
        assert nodes == [nodes[0]] + nodes[1..];
      }
      r
  }

  /** With unique ids, the lookup finds the one row carrying that id. */
  lemma LookupUnique(nodes: seq<Node>, n: Node)
    requires UniqueIds(nodes) && n in nodes
    ensures Lookup(nodes, n.id) == Some(n)
  {
    var i :| 0 <= i < |nodes| && nodes[i] == n;
    if i > 0 {
      assert nodes[0].id != n.id;
      assert nodes[1..][i - 1] == n;
      assert UniqueIds(nodes[1..]) by {
        forall a, b | 0 <= a < b < |nodes[1..]| ensures nodes[1..][a].id != nodes[1..][b].id {
          assert nodes[1..][a] == nodes[a + 1] && nodes[1..][b] == nodes[b + 1];
        }
      }
      LookupUnique(nodes[1..], n);
    }
  }

  lemma SortedIsUnique(nodes: seq<Node>)
    requires SortedById(nodes)
    ensures UniqueIds(nodes)
  {
  }
}
