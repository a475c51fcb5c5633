# AI Memory Tree — a Dafny model of its core

The AI Memory Tree stores a conversation as a forest of nodes. Each node is
one prompt/response pair in the `memory_nodes` table, with an optional
`parent_id`, a `depth`, and an optional cached `summary`. The FastAPI backend
does five things:

- it answers `POST /chat` by generating a reply from the parent's context;
- it serves the table as a nested forest;
- it deletes whole subtrees or the whole table;
- it reseeds a default `"Hi"` root;
- it resets the schema when the stored version differs.

Two clients, a Streamlit page and a React app, read the nested forest and
search it.

This project models that core in Dafny and proves its contracts.

| file | module | what it models |
|---|---|---|
| `wrappers.dfy` | `Wrappers` | `Option` (Python `None`) and `Result` (HTTP 404, RuntimeError) |
| `text.dfy` | `Text` | prefix slicing (`s[:k]`, `substring`) and whitespace trimming (`strip`, `trim`) |
| `models.dfy` | `Models` | the `memory_nodes` row, its column defaults, `to_dict`, id lookup |
| `llm.dfy` | `Llm` | `generate_response` and `summarize_node`, with the completion call as an input |
| `ancestry.dfy` | `Ancestry` | the reference meaning of "child", "ancestor", "subtree" and "root" over a flat table |
| `descendants.dfy` | `Descendants` | `_gather_descendants`: the children map and the stack traversal |
| `tree.dfy` | `TreeBuild` | `build_tree`: the nested forest |
| `context.dfy` | `Context` | the context-compression policy of `chat` and the forwarded prompt |
| `schema.dfy` | `Schema` | `init_db` and its schema-version decision |
| `store.dfy` | `Store` | the table as a state machine: `chat`, `clear_all`, `clear_subtree`, `startup` |
| `frontend.dfy` | `Frontend` | the client helpers: previews, the two searches, selection and the two guards |

**The table.** It is a sequence of rows in increasing id order, as
`ORDER BY id` on the primary key returns it. A new row gets the largest id
plus one, or 1 in an empty table. This is SQLite's rule for an integer
primary key while the largest id is below 2^63 - 1 (see "## Left out").

**The invariant `Store.Valid`.** It requires:

- ids are positive and increasing;
- every parent is present and has a smaller id;
- a root has depth 0;
- a child's depth is its parent's plus one;
- every summary is at most 250 characters.

Because parent ids precede child ids, parent links cannot form a cycle. The
tree and descendant proofs rely on this (`Models.ParentsPrecede`).

**The language model.** It is an oracle:

- the reply to a prompt is a parameter `generate: string -> Reply`, where a
  `Reply` is content or the text of a raised exception;
- the summariser's completion is an `Option<string>`, with `None` for "no
  usable message or an exception".

**Reference definitions.** The tree assembler and the descendant collector
are both proved against `Ancestry.Subtree`: the target plus every row whose
parent chain reaches it.

## Where the code promises more than it does

In each case the model follows what the code does, and the promise is
quoted from the code itself.

- **Collecting an unknown id.** `clear_subtree` carries a 404 with the detail
  "node not found" (backend/main.py:189-190), so it means to refuse an
  unknown id. Its test is for an empty id list, and `_gather_descendants`
  always returns `[target]` first. An unknown id therefore replies `[id]` and
  deletes nothing (see Findings).
- **A root at all times.** `startup` seeds a root under the comment "Create
  default root node if tree is empty" (backend/main.py:64), and `clear_all`
  reseeds one. `clear_subtree` has no such step: deleting the seeded root
  empties the table until the next startup or `/clear`
  (`Store.ClearSubtreeCanEmptyTable`). Only the React client stands in the
  way. Its guard, commented "Prevent deletion of root node with "Hi" message"
  (frontend-react/src/App.jsx:76-78), judges by content: a parentless row
  whose prompt is "Hi" (`Frontend.GuardKeepsDefaultRoot`,
  `Frontend.GuardAllowsOtherRows`).
- **Blank summaries.** The reuse test is `parent.summary.strip() == ""`
  (backend/main.py:103), so a whitespace-only summary counts as missing. A
  freshly generated summary is stored and used even when it is blank, and
  the next request on that parent summarises again
  (`Store.SiblingReusesSummary` promises reuse only for a non-blank summary).

## Model

| member | source | states |
|---|---|---|
| Models.NewRow | backend/models.py:10-16 | a new row stores the given id, prompt, response and parent, and has no summary; an omitted depth becomes 0, a given one is kept; an omitted timestamp becomes the clock reading, a given one is kept |
| Models.ColumnDefaults | backend/models.py:15-16 | omitting depth and timestamp gives the same row as passing 0 and the clock reading; with both given the clock is not read |
| Models.ToDict | backend/models.py:20-29 | the dictionary has exactly the keys id, prompt, response, summary, parent_id, depth and timestamp; each of the first six holds that column's value, null for an absent summary or parent; the timestamp is null when absent, otherwise its ISO text |
| Models.ToDictKeepsColumns | backend/models.py:20-27 | serialisation loses no column: two rows with equal dictionaries agree on id, prompt, response, summary, parent_id and depth, and on whether they have a timestamp |
| Models.Lookup | backend/main.py:89 | the parent query yields a row carrying the requested id, and yields nothing exactly when no row has that id |
| Llm.GenerateResponse | backend/groq_client.py:13-39 | a reply's content is returned unchanged; an exception never escapes and becomes `"[LLM error] "` followed by its text |
| Llm.SummarizeNode | backend/groq_client.py:41-72 | on every path the summary has at most 250 characters; with content it is the first min(250, length) characters of the content; without, it is that prefix of `"Q: {prompt}\nA: {response}"` |
| Llm.ShortFallbackIsVerbatim | backend/groq_client.py:69-72 | when the raw Q/A text has at most 250 characters, the failure fallback is that text unchanged |
| Ancestry.KidIdsExact | backend/main.py:147-150 | with unique ids, the children list of an id holds each child once, and holds exactly the rows whose parent is that id |
| Descendants.TraversalExact | backend/main.py:152-158 | from a stack of entries with disjoint subtrees, the traversal visits exactly the union of their subtrees, each id once |
| Descendants.TraversalIsSubtree | backend/main.py:152-158 | from a single target, the traversal visits exactly the target's subtree, each id once |
| Descendants.GatherDescendants | backend/main.py:146-159 | the result always starts with the target, even for an unknown id; with unique ids it is exactly the target plus its transitive descendants, without repeats |
| TreeBuild.BuildTree | backend/main.py:42-56 | the top level holds only root rows (no parent, or a parent missing from the list), and every root row appears there |
| TreeBuild.ForestWellNested | backend/main.py:44-55 | at every depth of the forest, a node's `children` are the trees of exactly the rows naming it as parent, in input order |
| TreeBuild.NestedMeansParent | backend/main.py:49-53 | in a well-nested tree each child names the node as parent, and every row naming the node as parent is one of its children |
| TreeBuild.EveryRowOnce | backend/main.py:44-55 | with unique ids and acyclic links, the flattened forest is a permutation of the input rows: every row appears exactly once, with all its fields |
| TreeBuild.ForestInInputOrder | backend/main.py:44-55 | on an id-ordered input, the roots and every children list keep the input order |
| Context.ChooseContext | backend/main.py:97-110 | raw Q/A text of at most 250 characters is used verbatim; longer text uses a non-blank cached summary; otherwise it uses a newly generated summary of at most 250 characters |
| Context.Forwarded | backend/main.py:112-114 | without a parent the forwarded prompt is the message itself; with one it is the header, the context, the bridge line and the message, in that order |
| Context.ForwardedInjective | backend/main.py:112 | the framed prompt determines its message and context once either length is fixed |
| Context.ContextBounded | backend/main.py:100-110 | when every stored summary is within the limit, the chosen context has at most 250 characters |
| Schema.InitDb | backend/db.py:48-71 | no version row: one current version row is written and existing nodes are kept; matching version: nothing changes; mismatch with dropping: the version table holds exactly one current row and the node table is empty; mismatch without dropping: a failure |
| Schema.InitDbIdempotent | backend/db.py:56-71 | after a successful `init_db`, a second call changes nothing |
| Schema.OnlyFirstVersionCounts | backend/db.py:58 | version rows after the first never change the outcome or the nodes kept |
| Store.SetSummaryValid | backend/main.py:105-107 | writing a summary of at most 250 characters onto a row keeps the table invariant and the set of ids |
| Store.Chat | backend/main.py:84-130 | 404 exactly when a parent id is given and absent; otherwise exactly one row is appended with a fresh largest id, the message, the generator's reply to the forwarded prompt, the parent as given, and depth parent depth + 1 (0 without a parent) |
| Store.ChatSummaryEffect | backend/main.py:100-107 | the existing rows are untouched unless the parent's raw text is too long and its summary is missing or blank; then exactly the parent gets the summariser's result |
| Store.ChatPreservesValid | backend/main.py:84-130 | a successful `chat` keeps the table invariant: parents present, depths consistent, summaries within 250 characters |
| Store.SiblingReusesSummary | backend/main.py:101-108 | after one request generates a non-blank summary for a parent, a second request on that parent uses the cached summary without summarising again |
| Store.ClearAll | backend/main.py:162-181 | afterwards the table holds exactly one valid row: prompt "Hi", no parent, depth 0, the generator's reply to "Hi" |
| Store.DeleteIds | backend/main.py:191 | the rows kept are exactly those whose id is not listed |
| Store.DeleteIdempotent | backend/main.py:191 | deleting the same ids twice leaves the same table as deleting them once |
| Store.CascadeAddsNothing | backend/models.py:14 | on a valid table, the ON DELETE CASCADE foreign key removes nothing beyond the collected ids |
| Store.ClearSubtreeAsWritten | backend/main.py:184-193 | the reply lists the traversal from the target, and the rows with those ids are deleted |
| Store.AsWrittenMatchesCorrected | backend/main.py:184-193 | on a table holding the target, the handler as written and the corrected one give the same table and the same reply |
| Store.ClearSubtreeAsWrittenPreservesValid | backend/main.py:184-193 | the handler as written always succeeds and keeps the table invariant: an unknown id deletes nothing, a present one removes its whole subtree |
| Store.NotFoundUnreachable | backend/main.py:188-190 | the 404 branch can never be taken; on a valid table, an unknown id replies `[id]` and deletes nothing |
| Store.ClearSubtree | backend/main.py:184-193 | 404 exactly when no row has the id; otherwise the reply holds exactly the target's subtree, and exactly the rows outside it remain |
| Store.ClearSubtreePreservesValid | backend/main.py:184-193 | deleting a whole subtree leaves no orphan: the table stays valid |
| Store.ClearSubtreeCanEmptyTable | backend/main.py:184-193 | on a freshly cleared table, deleting the seeded root (id 1) replies `[1]` and leaves the table empty; nothing reseeds it |
| Store.Startup | backend/main.py:59-81 | it succeeds exactly when `init_db` succeeds and the node table exists; a schema failure is passed on (reachable only with `drop_if_mismatch` false; `startup` passes the default true); a non-empty table is kept; an empty one gets one row: prompt "Hi", the generator's reply to "Hi", no parent, depth 0 |
| Store.StartupPreservesValid | backend/main.py:64-79 | starting from a valid or absent table leaves a valid table |
| Frontend.ShortPreview | frontend/app.py:9-10 | text that fits is returned unchanged; longer text gives `text[:length]` followed by "...", for a non-negative length, of length `length + 3`; for any length the result starts with `text[:length]`, and longer text ends in "..." |
| Frontend.Preview | frontend-react/src/components/TreeNode.jsx:8 | an empty prompt gives "(no prompt)"; a prompt of at most 40 characters is unchanged; a longer one gives its first 40 characters followed by "..." |
| Frontend.PreviewAgreesWithShortPreview | frontend-react/src/components/TreeNode.jsx:8 | the React preview equals `short_preview(prompt, 40)` exactly when the prompt is non-empty |
| Frontend.HasChildrenIffSomeChild | frontend-react/src/components/TreeNode.jsx:7 | in the served forest, a node has children exactly when some row names it as parent |
| Frontend.FindIn | frontend-react/src/App.jsx:34-41 | the search below one node finds a node carrying the id inside it, and finds nothing exactly when no node below it has the id |
| Frontend.FindFirst | frontend-react/src/App.jsx:34-41 | `findNodeById` returns the first node carrying the id in pre-order (a node before its children, an earlier root's subtree before a later root), and null exactly when no node has it; missing `children` count as empty |
| Frontend.FindByStack | frontend/app.py:39-46 | `find_node_by_id` terminates, returns a node of the forest carrying the id or None exactly when none has it, and with unique ids returns the same node as `findNodeById` |
| Frontend.SelectedNode | frontend-react/src/App.jsx:43 | nothing is selected when the selected id is null or 0; otherwise the selection is the node found for that id |
| Frontend.SendRequest | frontend-react/src/App.jsx:45-58 | a request is made exactly when a node is selected and the message has a non-whitespace character; it carries the message untrimmed, with the selected node as parent |
| Frontend.GuardRefusesClearedRoot | frontend-react/src/App.jsx:75-80 | the guard refuses to delete the root that `DELETE /clear` seeds |
| Frontend.GuardRefusesStartupRoot | frontend-react/src/App.jsx:75-80 | the guard refuses to delete the root that `startup` seeds into an empty table |
| Frontend.GuardKeepsDefaultRoot | frontend-react/src/App.jsx:75-80 | whichever branch the guard lets through, the backend's deletion keeps every parentless "Hi" row |
| Frontend.GuardAllowsOtherRows | frontend-react/src/App.jsx:75-80 | every other row passes the guard, and the backend then removes exactly its subtree |

## Left out

- HTTP, the web framework, sessions, CORS and JSON encoding are not modelled. Each handler is a function from the table to the table and a reply.
- Transactions, concurrent requests, the SQLite timeout and WAL mode are not modelled. Each handler is one atomic step.
- The completion service is an input. `Reply.Content` covers both a message's content and the `str(completion)` fallback of `generate_response`.
- A message whose `content` is `None` is not modelled. `generate_response` would return `None`, which the `NOT NULL` column refuses.
- The clock (`datetime.utcnow()`) is a parameter `now`. The ISO formatting of timestamps is a parameter `iso`.
- `get_nodes` and `get_tree` are not separate members. They are an ordered query, `to_dict` per row and `build_tree`, each modelled.
- The reply body of `clear_all` is a constant and is not modelled.
- Rendering is not modelled: the Streamlit page (`render_node`, `main`), the React components' markup, `NodePanel.jsx` and `TreeDisplay.jsx`, `alert`/`confirm`, and `fetch`/`httpx`. `NodePanel.jsx` repeats the guard of `App.jsx`.
- Whitespace is the six ASCII characters space, tab, newline, carriage return, vertical tab and form feed. Python's `strip` also removes the separators `\x1c`-`\x1f`, `\x85` and the Unicode spaces; JavaScript's `trim` removes the Unicode spaces and `\ufeff` but keeps `\x1c`-`\x1f` and `\x85`. The two clients and the backend therefore disagree on those characters, which the model does not represent.
- Lengths count characters. JavaScript's `substring` and `length` count UTF-16 code units, which differs for characters outside the Basic Multilingual Plane.
- Frontend.FindByStack: an explicit `null` for `children` is not modelled; the model only has a missing key. The Python client would fail on an explicit `null`, where the React client treats it as empty.
- Frontend.SendRequest: with no node selected, the source raises a TypeError that its own `catch` turns into an alert. The model states this as "no request".
- Cyclic parent links are excluded by `ParentsPrecede`, which the store guarantees. On a cycle the Python traversal of `_gather_descendants` would not terminate.
- `build_tree` puts rows into a dictionary by id, so a repeated id would collapse. The model relies on unique ids, as the primary key guarantees.
- Schema.InitDb: the two tables are reduced to a version list and an optional node table. Redefining the version table a second time in the same process is not modelled, so `Schema.InitDbIdempotent` is about the stored state only.
- Store.ClearSubtreeAsWritten: the table query of `clear_subtree` has no `ORDER BY` (backend/main.py:186). The model passes the id-ordered table, so the order of the `deleted_ids` reply is the one for SQLite scanning in rowid order. The set of ids deleted does not depend on that order.
- Integer width: ids, `parent_id` and `depth` are unbounded integers in the model, while SQLite stores them as signed 64-bit integers. An id outside that range cannot be bound by the database driver. So `POST /chat` with such a `parent_id` fails with a server error where `Store.Chat` promises a 404, and `DELETE /clear/{id}` with such an id fails at the delete where `Store.ClearSubtreeAsWritten` replies `[id]`.
- Store.FreshId: once the largest id reaches 2^63 - 1, SQLite picks a random unused id instead of the largest plus one. That id can be smaller than a parent's and break `ParentsPrecede`. The model always uses the largest plus one.
- Store.Startup: `dropIfMismatch` is a parameter, but `startup` always calls `init_db()` with its default `True` (backend/main.py:62). The `SchemaFailure` branch is therefore never taken by the program as written; it models `init_db(False)`.
- Store.Startup: the case where the version matches but the node table is missing (the count query raises) is a failure `MissingTable`.

## Findings

| source | as written | input that shows it | evidently intended | confidence | as-written member | corrected member |
|---|---|---|---|---|---|---|
| backend/main.py:188-190 | `clear_subtree` answers 404 only when the collected id list is empty. `_gather_descendants` always puts the target first, so the list is never empty. | `DELETE /clear/999` on a table with no row 999 answers `{"deleted_ids": [999]}` and deletes nothing. | 404 "node not found" exactly when no row has the id. | not executed; high (the property is proved for every table) | Store.ClearSubtreeAsWritten (with Store.NotFoundUnreachable) | Store.ClearSubtree |
