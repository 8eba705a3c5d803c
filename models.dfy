/** The three tables of the store (matrices, labels, tasks), the task-label
    association table, and the integrity rules the schema declares for them.
    Timestamps are abstract clock readings (`nat`). */
module Models {
  import opened Results

  /** A shared workspace. `id` is an opaque text key. */
  datatype Matrix = Matrix(id: string, createdAt: nat, updatedAt: nat)

  /** A named tag owned by exactly one matrix. */
  datatype Label = Label(
    id: int,
    matrixId: string,
    name: string,
    color: Option<string>,
    createdAt: nat,
    updatedAt: nat)

  /** A unit of work owned by exactly one matrix; `quadrant` is free text. */
  datatype Task = Task(
    id: int,
    matrixId: string,
    title: string,
    description: Option<string>,
    quadrant: string,
    createdAt: nat,
    updatedAt: nat)

  /** The whole database as one value: the three tables keyed by primary key,
      the association as a set of (task id, label id) pairs (a pair is its own
      primary key, so it occurs at most once), and the latest clock reading. */
  datatype Db = Db(
    matrices: map<string, Matrix>,
    labels: map<int, Label>,
    tasks: map<int, Task>,
    assoc: set<(int, int)>,
    clock: nat)

  /** A freshly created database: empty tables. */
  function EmptyDb(): (db: Db)
    ensures Valid(db)
    ensures db.matrices == map[] && db.labels == map[] && db.tasks == map[] && db.assoc == {}
  {
    Db(map[], map[], map[], {}, 0)
  }

  // ---------------------------------------------------------------------------
  // Row ids. The integer primary keys are SQLite rowids: the column is an
  // INTEGER PRIMARY KEY without the AUTOINCREMENT keyword, so a new row gets
  // one more than the largest id in the table, and 1 in an empty table.

  /** A non-empty set of ids has a member to pick. */
  lemma NonEmptyHasId(ids: set<int>)
    requires ids != {}
    ensures exists x :: x in ids
  {
    if forall x :: x !in ids {
      assert false;
    }
  }

  /** The largest id of a non-empty set of ids. */
  ghost function MaxId(ids: set<int>): (k: int)
    requires ids != {}
    ensures k in ids && forall j :: j in ids ==> j <= k
  {
    NonEmptyHasId(ids);
    var x :| x in ids;
    var rest := ids - {x};
    assert forall j :: j in ids ==> j in rest || j == x;
    if rest == {} then x
    else
      var y := MaxId(rest);
      if x < y then y else x
  }

  /** The id SQLite gives the next row of a table whose ids are `ids`. */
  ghost function NextRowid(ids: set<int>): (k: int)
    ensures k !in ids
    ensures forall j :: j in ids ==> j < k
    ensures ids == {} ==> k == 1
    ensures ids != {} ==> k - 1 in ids
  {
    if ids == {} then 1 else MaxId(ids) + 1
  }

  /** The next rowid is the only id above every id present that is either 1
      or just above a present one. */
  lemma NextRowidUnique(ids: set<int>, k: int)
    requires forall j :: j in ids ==> j < k
    requires (ids == {} && k == 1) || k - 1 in ids
    ensures k == NextRowid(ids)
  {
    if ids != {} {
      var n := NextRowid(ids);
      assert n - 1 < k && k - 1 < n;
    }
  }

  // ---------------------------------------------------------------------------
  // Integrity rules

  /** Every row is stored under its own primary key. */
  ghost predicate KeysMatch(db: Db) {
    && (forall k :: k in db.matrices ==> db.matrices[k].id == k)
    && (forall k :: k in db.labels ==> db.labels[k].id == k)
    && (forall k :: k in db.tasks ==> db.tasks[k].id == k)
  }

  /** The non-null foreign key `matrix_id` of every label and task refers to
      an existing matrix. */
  ghost predicate OwnersExist(db: Db) {
    && (forall k :: k in db.labels ==> db.labels[k].matrixId in db.matrices)
    && (forall k :: k in db.tasks ==> db.tasks[k].matrixId in db.matrices)
  }

  /** Both foreign keys of every association pair refer to existing rows, and
      the task and the label belong to the same matrix. */
  ghost predicate AssocWellFormed(db: Db) {
    forall p :: p in db.assoc ==>
      && p.0 in db.tasks
      && p.1 in db.labels
      && db.tasks[p.0].matrixId == db.labels[p.1].matrixId
  }

  /** The unique constraint on (matrix_id, name): exact, case-sensitive. */
  ghost predicate UniqueLabelNames(db: Db) {
    forall a, b ::
      a in db.labels && b in db.labels && a != b &&
      db.labels[a].matrixId == db.labels[b].matrixId
      ==> db.labels[a].name != db.labels[b].name
  }

  /** Rowids handed out are positive. */
  ghost predicate IdsPositive(db: Db) {
    && (forall k :: k in db.labels ==> 1 <= k)
    && (forall k :: k in db.tasks ==> 1 <= k)
  }

  /** created_at <= updated_at <= the latest clock reading, for every row. */
  ghost predicate TimestampsOrdered(db: Db) {
    && (forall k :: k in db.matrices ==>
          db.matrices[k].createdAt <= db.matrices[k].updatedAt <= db.clock)
    && (forall k :: k in db.labels ==>
          db.labels[k].createdAt <= db.labels[k].updatedAt <= db.clock)
    && (forall k :: k in db.tasks ==>
          db.tasks[k].createdAt <= db.tasks[k].updatedAt <= db.clock)
  }

  ghost predicate Valid(db: Db) {
    && KeysMatch(db)
    && OwnersExist(db)
    && AssocWellFormed(db)
    && UniqueLabelNames(db)
    && IdsPositive(db)
    && TimestampsOrdered(db)
  }

  /** No element occurs twice. */
  predicate Distinct<T(==)>(s: seq<T>) {
    forall i, j :: 0 <= i < j < |s| ==> s[i] != s[j]
  }

  /** A list without repeats is as long as the set of its elements. */
  lemma {:induction false} DistinctLength<T>(s: seq<T>, elems: set<T>)
    requires Distinct(s)
    requires forall x :: x in s <==> x in elems
    ensures |s| == |elems|
    decreases |s|
  {
    if |s| > 0 {
      var rest := s[1..];
      assert Distinct(rest) by {
        forall i, j | 0 <= i < j < |rest| ensures rest[i] != rest[j] {
          assert rest[i] == s[i + 1] && rest[j] == s[j + 1];
        }
      }
      forall x ensures x in rest <==> x in elems - {s[0]} {
        if x in rest {
          var j :| 0 <= j < |rest| && rest[j] == x;
          assert s[j + 1] == x;
        }
        if x in elems && x != s[0] {
          var j :| 0 <= j < |s| && s[j] == x;
          assert rest[j - 1] == x;
        }
      }
      DistinctLength(rest, elems - {s[0]});
    }
  }

  // ---------------------------------------------------------------------------
  // Queries scoped to a matrix or a task

  /** The label exists and belongs to matrix `m`. */
  predicate LabelUnder(db: Db, m: string, id: int) {
    id in db.labels && db.labels[id].matrixId == m
  }

  /** The task exists and belongs to matrix `m`. */
  predicate TaskUnder(db: Db, m: string, id: int) {
    id in db.tasks && db.tasks[id].matrixId == m
  }

  /** Some label of matrix `m`, other than `except`, is called `name`. */
  predicate NameTaken(db: Db, m: string, name: string, except: Option<int>) {
    exists id :: id in db.labels && db.labels[id].matrixId == m &&
      db.labels[id].name == name && except != Some(id)
  }

  ghost function LabelsOfMatrix(db: Db, m: string): set<Label> {
    set id | id in db.labels && db.labels[id].matrixId == m :: db.labels[id]
  }

  ghost function TaskIdsOfMatrix(db: Db, m: string): set<int> {
    set id | id in db.tasks && db.tasks[id].matrixId == m
  }

  ghost function LabelIdsOfTask(db: Db, t: int): set<int> {
    set p | p in db.assoc && p.0 == t :: p.1
  }

  ghost function LabelsOfTask(db: Db, t: int): set<Label> {
    set id | id in db.labels && (t, id) in db.assoc :: db.labels[id]
  }

  // ---------------------------------------------------------------------------
  // Cascade: deleting a matrix deletes its labels and tasks ("all,
  // delete-orphan"), and deleting those rows deletes their association rows.

  function DeleteMatrix(db: Db, m: string): Db {
    var goneLabels := set id | id in db.labels && db.labels[id].matrixId == m;
    var goneTasks := set id | id in db.tasks && db.tasks[id].matrixId == m;
    db.(matrices := db.matrices - {m},
        labels := db.labels - goneLabels,
        tasks := db.tasks - goneTasks,
        assoc := set p | p in db.assoc && p.0 !in goneTasks && p.1 !in goneLabels)
  }

  /** Nothing owned by the deleted matrix survives, nothing else is removed,
      every task of another matrix keeps exactly its labels, and the integrity
      rules still hold. */
  lemma DeleteMatrixCascades(db: Db, m: string)
    requires Valid(db)
    ensures var d := DeleteMatrix(db, m);
      && Valid(d)
      && d.matrices.Keys == db.matrices.Keys - {m}
      && (forall k :: k in d.labels ==> d.labels[k].matrixId != m)
      && (forall k :: k in d.tasks ==> d.tasks[k].matrixId != m)
      && (forall p :: p in d.assoc ==> p in db.assoc)
      && (forall k :: k in db.matrices && k != m ==> k in d.matrices && d.matrices[k] == db.matrices[k])
      && (forall k :: k in db.labels && db.labels[k].matrixId != m ==> k in d.labels && d.labels[k] == db.labels[k])
      && (forall k :: k in db.tasks && db.tasks[k].matrixId != m ==> k in d.tasks && d.tasks[k] == db.tasks[k])
      && (forall t :: t in d.tasks ==> LabelIdsOfTask(d, t) == LabelIdsOfTask(db, t))
  {
    var d := DeleteMatrix(db, m);
    forall t | t in d.tasks
      ensures LabelIdsOfTask(d, t) == LabelIdsOfTask(db, t)
    {
      forall l | l in LabelIdsOfTask(db, t)
        ensures l in LabelIdsOfTask(d, t)
      {
        assert (t, l) in db.assoc;
        assert (t, l) in d.assoc;
      }
    }
  }
}
