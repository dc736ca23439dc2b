/** The rows of the server's database (app/models.py) and the items the
    bulk endpoint accepts (app/main.py). Instants are whole numbers of an
    arbitrary unit on one UTC time line. */
module Schema {
  import opened Wrappers

  /** One row of the `assignments` table. */
  datatype Row = Row(
    id: nat,
    userId: string,
    sourceUid: Option<string>,
    title: string,
    course: Option<string>,
    kind: string,
    dueAt: Option<int>,
    status: string)

  /** One item of a `POST /assignments/bulk` body, after validation. */
  datatype AssignmentIn = AssignmentIn(
    title: string,
    dueAt: Option<int>,
    course: Option<string>,
    kind: string,
    sourceUid: Option<string>)

  /** The validated item for a body entry: `due_at`, `course` and
      `source_uid` default to null and `kind` to "assignment" when the entry
      omits them (`None` here). */
  function ItemFromBody(title: string, dueAt: Option<int>, course: Option<string>,
                        kind: Option<string>, sourceUid: Option<string>): (it: AssignmentIn)
    ensures it.title == title && it.dueAt == dueAt && it.course == course && it.sourceUid == sourceUid
    ensures kind.None? ==> it.kind == "assignment"
    ensures kind.Some? ==> it.kind == kind.value
  {
    AssignmentIn(title, dueAt, course, kind.GetOr("assignment"), sourceUid)
  }

  /** The unique constraint `uq_assignment_source` on (`user_id`, `source_uid`):
      no two rows of one user carry the same non-null uid (SQL treats nulls
      as distinct). */
  predicate UniqueKeys(rows: seq<Row>)
  {
    forall i, j :: 0 <= i < j < |rows| && rows[i].userId == rows[j].userId && rows[i].sourceUid.Some? ==>
      rows[i].sourceUid != rows[j].sourceUid
  }

  /** Two rows of one user with the same uid, after any other rows, break
      the constraint. */
  lemma KeyClash(front: seq<Row>, rows: seq<Row>, i: nat, j: nat)
    requires i < j < |rows| && rows[i].userId == rows[j].userId
    requires rows[i].sourceUid.Some? && rows[i].sourceUid == rows[j].sourceUid
    ensures !UniqueKeys(front + rows)
  {
    var all := front + rows;
    assert all[|front| + i] == rows[i] && all[|front| + j] == rows[j];
  }

  /** The primary key: no two rows share an id. */
  predicate DistinctIds(rows: seq<Row>)
  {
    forall i, j :: 0 <= i < j < |rows| ==> rows[i].id != rows[j].id
  }
}
