/** The schema-version guard of `init_db` (backend/db.py): a one-column
    version table decides whether the node table is kept, created, or
    dropped and recreated empty. */
module Schema {
  import opened Wrappers
  import opened Models

  /** The schema version this program writes and expects. */
  const SchemaVersion: int := 1

  /** The part of the database `init_db` looks at: the rows of the version
      table in storage order, and the node table (`None` when it does not
      exist). */
  datatype Db = Db(versions: seq<int>, nodes: Option<seq<Node>>)

  datatype SchemaError = VersionMismatch

  /** `init_db(drop_if_mismatch)`. Only the first version row is read. */
  function InitDb(db: Db, dropIfMismatch: bool): (r: Result<Db, SchemaError>)
    ensures r.Failure? <==> |db.versions| > 0 && db.versions[0] != SchemaVersion && !dropIfMismatch
    ensures r.Success? ==> |r.value.versions| > 0 && r.value.versions[0] == SchemaVersion
    ensures r.Success? && |db.versions| > 0 && db.versions[0] == SchemaVersion ==> r.value == db
    ensures r.Success? && !(|db.versions| > 0 && db.versions[0] == SchemaVersion) ==> r.value.versions == [SchemaVersion]
    ensures r.Success? && |db.versions| == 0 ==> r.value.nodes == Some(db.nodes.GetOr([]))
    ensures r.Success? && |db.versions| > 0 && db.versions[0] != SchemaVersion ==> r.value.nodes == Some([])
  {
    if |db.versions| == 0 then
      Success(Db([SchemaVersion], Some(db.nodes.GetOr([]))))
    else if db.versions[0] == SchemaVersion then
      Success(db)
    else if dropIfMismatch then
      Success(Db([SchemaVersion], Some([])))
    else
      Failure(VersionMismatch)
  }

  /** Running `init_db` a second time changes nothing. */
  lemma InitDbIdempotent(db: Db, dropIfMismatch: bool, drop2: bool)
    requires InitDb(db, dropIfMismatch).Success?
    ensures InitDb(InitDb(db, dropIfMismatch).value, drop2) == InitDb(db, dropIfMismatch)
  {
  }

  /** Rows after the first in the version table are never consulted. */
  lemma OnlyFirstVersionCounts(db: Db, extra: seq<int>, dropIfMismatch: bool)
    requires |db.versions| > 0
    ensures InitDb(db.(versions := db.versions + extra), dropIfMismatch).Success? == InitDb(db, dropIfMismatch).Success?
    ensures InitDb(db, dropIfMismatch).Success? ==>
      InitDb(db.(versions := db.versions + extra), dropIfMismatch).value.nodes == InitDb(db, dropIfMismatch).value.nodes
  {
  }
}
