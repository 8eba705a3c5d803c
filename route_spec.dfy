/** What each route handler does, stated as a function from the database
    before the request to the database after it and the handler's answer.
    The `Store` class implements these step by step; the lemmas here state
    the rules the handlers follow. */
module RouteSpec {
  import opened Results
  import opened Models
  import opened Schemas

  // ---------------------------------------------------------------------------
  // Touching the parent matrix

  /** The intended effect of the "update matrix timestamp" helper: the
      matrix's `updated_at` becomes `now`; an absent matrix is left alone. */
  ghost function Touch(db: Db, m: string, now: nat): (r: Db)
    ensures r.labels == db.labels && r.tasks == db.tasks && r.assoc == db.assoc
    ensures r.clock == db.clock
    ensures r.matrices.Keys == db.matrices.Keys
    ensures m in db.matrices ==> r.matrices[m] == db.matrices[m].(updatedAt := now)
    ensures forall k :: k in db.matrices && k != m ==> r.matrices[k] == db.matrices[k]
  {
    if m in db.matrices then db.(matrices := db.matrices[m := db.matrices[m].(updatedAt := now)])
    else db
  }

  /** The helper as written: it commits a session in which the matrix row has
      no pending change, so no UPDATE is issued for it and the column's
      on-update default never runs. The database is left as it was. */
  ghost function TouchAsWritten(db: Db, m: string): (r: Db)
    ensures m in db.matrices ==> m in r.matrices && r.matrices[m].updatedAt == db.matrices[m].updatedAt
  {
    db
  }

  /** A matrix created at time 1 that gains a label at time 2: both handlers
      store the same label, but with the helper as written the matrix's
      `updated_at` stays 1, and with the intended helper it is 2. */
  lemma TouchAsWrittenMissesChildChange()
    ensures var (db0, _) := CreateMatrix(EmptyDb(), "m1", 1);
      var (asWritten, r) := CreateLabelAsWritten(db0, "m1", LabelCreate("Work", None), 2);
      var (intended, s) := CreateLabel(db0, "m1", LabelCreate("Work", None), 2);
      && r.Ok? && r == s
      && asWritten.labels == intended.labels
      && "m1" in asWritten.matrices && asWritten.matrices["m1"].updatedAt == 1
      && "m1" in intended.matrices && intended.matrices["m1"].updatedAt == 2
  {
    var (db0, _) := CreateMatrix(EmptyDb(), "m1", 1);
    assert !NameTaken(db0, "m1", "Work", None);
  }

  lemma TouchPreservesValid(db: Db, m: string, now: nat)
    requires Valid(db) && db.clock == now
    ensures Valid(Touch(db, m, now))
    ensures m in db.matrices ==> db.matrices[m].updatedAt <= Touch(db, m, now).matrices[m].updatedAt == now
  {
  }

  // ---------------------------------------------------------------------------
  // Matrices

  /** Matrix creation with a fresh id: created and updated at `now`. */
  ghost function CreateMatrix(db: Db, id: string, now: nat): (Db, MatrixResponse)
    requires id !in db.matrices
  {
    (db.(matrices := db.matrices[id := Matrix(id, now, now)], clock := now),
     MatrixResponse(id, now, now, SharableLink(id)))
  }

  lemma CreateMatrixResult(db: Db, id: string, now: nat)
    requires Valid(db) && db.clock <= now && id !in db.matrices
    ensures var (d, r) := CreateMatrix(db, id, now);
      && Valid(d)
      && d.matrices.Keys == db.matrices.Keys + {id}
      && d.matrices == db.matrices[id := Matrix(id, now, now)]
      && r.id == id && r.createdAt == r.updatedAt == now
      && r.sharableLink == LinkPrefix + id
      && LabelsOfMatrix(d, id) == {} && TaskIdsOfMatrix(d, id) == {}
      && d.labels == db.labels && d.tasks == db.tasks && d.assoc == db.assoc
  {
    var (d, r) := CreateMatrix(db, id, now);
    forall k | k in d.tasks ensures d.tasks[k].matrixId != id {
      assert d.tasks[k].matrixId in db.matrices;
    }
  }

  // ---------------------------------------------------------------------------
  // Labels

  /** What the label-create handler itself commits, before it calls the
      timestamp helper: the matrix is looked up first, the name second, and a
      new label gets the next rowid. */
  ghost function AddLabel(db: Db, m: string, p: LabelCreate, now: nat): (Db, Outcome<Label>) {
    if m !in db.matrices then (db, NotFound)
    else if NameTaken(db, m, p.name, None) then (db, Conflict)
    else
      var l := Label(NextRowid(db.labels.Keys), m, p.name, p.color, now, now);
      (db.(labels := db.labels[l.id := l], clock := now), Ok(l))
  }

  /** Label creation, touching the matrix as intended. */
  ghost function CreateLabel(db: Db, m: string, p: LabelCreate, now: nat): (Db, Outcome<Label>) {
    var (d, r) := AddLabel(db, m, p, now);
    (if r.Ok? then Touch(d, m, now) else d, r)
  }

  /** Label creation with the timestamp helper as written. */
  ghost function CreateLabelAsWritten(db: Db, m: string, p: LabelCreate, now: nat): (Db, Outcome<Label>) {
    var (d, r) := AddLabel(db, m, p, now);
    (if r.Ok? then TouchAsWritten(d, m) else d, r)
  }

  /** Label update: the label must exist under this matrix; a new name may
      not be held by a different label of the same matrix. */
  ghost function UpdateLabel(db: Db, m: string, id: int, u: LabelUpdate, now: nat): (Db, Outcome<Label>) {
    if !LabelUnder(db, m, id) then (db, NotFound)
    else if u.name.Some? && NameTaken(db, m, u.name.value, Some(id)) then (db, Conflict)
    else
      var l := ApplyLabelUpdate(db.labels[id], u, now);
      (Touch(db.(labels := db.labels[id := l], clock := now), m, now), Ok(l))
  }

  /** The association without the pairs of label `l`. */
  function WithoutLabel(assoc: set<(int, int)>, l: int): set<(int, int)> {
    set p | p in assoc && p.1 != l
  }

  /** Label deletion: the label and every association pair naming it go. */
  ghost function DeleteLabel(db: Db, m: string, id: int, now: nat): (Db, Outcome<()>) {
    if !LabelUnder(db, m, id) then (db, NotFound)
    else
      (Touch(db.(labels := db.labels - {id}, assoc := WithoutLabel(db.assoc, id), clock := now), m, now), Ok(()))
  }

  lemma CreateLabelResult(db: Db, m: string, p: LabelCreate, now: nat)
    requires Valid(db) && db.clock <= now
    ensures var (d, r) := CreateLabel(db, m, p, now);
      && Valid(d)
      && (r.NotFound? <==> m !in db.matrices)
      && (r.Conflict? <==> m in db.matrices && NameTaken(db, m, p.name, None))
      && (!r.Ok? ==> d == db)
      && (r.Ok? ==>
            && (forall k :: k in db.labels ==> k < r.value.id)
            && (r.value.id == 1 || r.value.id - 1 in db.labels)
            && r.value == Label(r.value.id, m, p.name, p.color, now, now)
            && d.labels == db.labels[r.value.id := r.value]
            && LabelsOfMatrix(d, m) == LabelsOfMatrix(db, m) + {r.value}
            && d.tasks == db.tasks && d.assoc == db.assoc
            && d.matrices == db.matrices[m := db.matrices[m].(updatedAt := now)]
            && db.matrices[m].updatedAt <= now)
  {
    var (d, r) := CreateLabel(db, m, p, now);
    if r.Ok? {
      var l := r.value;
      var d1 := db.(labels := db.labels[l.id := l], clock := now);
      assert AddLabel(db, m, p, now) == (d1, r);
      assert d == Touch(d1, m, now);
      assert l.id == NextRowid(db.labels.Keys) && l.id !in db.labels && 1 <= l.id;
      InsertedLabelKeepsValid(db, l, now);
      TouchPreservesValid(d1, m, now);
      InsertedLabelOfMatrix(db, l, now);
    }
  }

  /** A new label under an existing matrix, with a fresh positive id and a
      name free in that matrix, keeps the integrity rules. */
  lemma InsertedLabelKeepsValid(db: Db, l: Label, now: nat)
    requires Valid(db) && db.clock <= now
    requires l.matrixId in db.matrices && l.id !in db.labels && 1 <= l.id
    requires !NameTaken(db, l.matrixId, l.name, None) && l.createdAt <= l.updatedAt <= now
    ensures Valid(db.(labels := db.labels[l.id := l], clock := now))
  {
    var d1 := db.(labels := db.labels[l.id := l], clock := now);
    forall a, b | a in d1.labels && b in d1.labels && a != b &&
      d1.labels[a].matrixId == d1.labels[b].matrixId
      ensures d1.labels[a].name != d1.labels[b].name
    {
      if a == l.id {
        assert !(db.labels[b].matrixId == l.matrixId && db.labels[b].name == l.name && None != Some(b));
      } else if b == l.id {
        assert !(db.labels[a].matrixId == l.matrixId && db.labels[a].name == l.name && None != Some(a));
      }
    }
  }

  /** The labels of the new label's matrix gain exactly that label. */
  lemma InsertedLabelOfMatrix(db: Db, l: Label, now: nat)
    requires l.id !in db.labels
    ensures var d := db.(labels := db.labels[l.id := l], clock := now);
      LabelsOfMatrix(d, l.matrixId) == LabelsOfMatrix(db, l.matrixId) + {l}
  {
    var m := l.matrixId;
    var d := db.(labels := db.labels[l.id := l], clock := now);
    forall x | x in LabelsOfMatrix(db, m) ensures x in LabelsOfMatrix(d, m) {
      var k :| k in db.labels && db.labels[k].matrixId == m && x == db.labels[k];
      assert k in d.labels && d.labels[k] == x;
    }
    assert l.id in d.labels && d.labels[l.id] == l;
  }

  /** Creating a second label with the same name under the same matrix
      fails with Conflict. */
  lemma SecondLabelWithSameNameConflicts(db: Db, m: string, p: LabelCreate, q: LabelCreate, now: nat, later: nat)
    requires CreateLabel(db, m, p, now).1.Ok? && q.name == p.name
    ensures CreateLabel(CreateLabel(db, m, p, now).0, m, q, later).1 == Conflict
  {
    var d := CreateLabel(db, m, p, now).0;
    var l := CreateLabel(db, m, p, now).1.value;
    assert d.labels[l.id] == l;
  }

  /** A name free in two matrices can be given to one label in each:
      names are unique per matrix, not across matrices. */
  lemma SameNameInTwoMatrices(db: Db, m1: string, m2: string, p: LabelCreate, q: LabelCreate, now: nat, later: nat)
    requires Valid(db) && db.clock <= now
    requires m1 != m2 && m1 in db.matrices && m2 in db.matrices && q.name == p.name
    requires !NameTaken(db, m1, p.name, None) && !NameTaken(db, m2, p.name, None)
    ensures var (d, r) := CreateLabel(db, m1, p, now);
      r.Ok? && CreateLabel(d, m2, q, later).1.Ok?
  {
    CreateLabelResult(db, m1, p, now);
  }

  lemma UpdateLabelResult(db: Db, m: string, id: int, u: LabelUpdate, now: nat)
    requires Valid(db) && db.clock <= now
    ensures var (d, r) := UpdateLabel(db, m, id, u, now);
      && Valid(d)
      && (r.NotFound? <==> !LabelUnder(db, m, id))
      && (r.Conflict? <==> LabelUnder(db, m, id) && u.name.Some? && NameTaken(db, m, u.name.value, Some(id)))
      && (!r.Ok? ==> d == db)
      && (r.Ok? ==>
            && r.value == ApplyLabelUpdate(db.labels[id], u, now)
            && d.labels == db.labels[id := r.value]
            && d.tasks == db.tasks && d.assoc == db.assoc
            && d.matrices == db.matrices[m := db.matrices[m].(updatedAt := now)]
            && db.matrices[m].updatedAt <= now)
  {
    var (d, r) := UpdateLabel(db, m, id, u, now);
    if r.Ok? {
      var l := r.value;
      var d1 := db.(labels := db.labels[id := l], clock := now);
      assert UniqueLabelNames(d1) by {
        forall a, b | a in d1.labels && b in d1.labels && a != b &&
          d1.labels[a].matrixId == d1.labels[b].matrixId
          ensures d1.labels[a].name != d1.labels[b].name
        {
          if a == id && u.name.Some? {
            assert !(db.labels[b].matrixId == m && db.labels[b].name == u.name.value && Some(id) != Some(b));
          } else if b == id && u.name.Some? {
            assert !(db.labels[a].matrixId == m && db.labels[a].name == u.name.value && Some(id) != Some(a));
          }
        }
      }
      assert Valid(d1);
      TouchPreservesValid(d1, m, now);
    }
  }

  /** Renaming a label to its own current name succeeds: only a different
      label holding the name is a conflict. */
  lemma RenameToOwnNameSucceeds(db: Db, m: string, id: int, color: Option<string>, now: nat)
    requires Valid(db) && LabelUnder(db, m, id)
    ensures UpdateLabel(db, m, id, LabelUpdate(Some(db.labels[id].name), color), now).1.Ok?
  {
  }

  lemma DeleteLabelResult(db: Db, m: string, id: int, now: nat)
    requires Valid(db) && db.clock <= now
    ensures var (d, r) := DeleteLabel(db, m, id, now);
      && Valid(d)
      && (r.NotFound? <==> !LabelUnder(db, m, id))
      && (!r.Ok? ==> d == db)
      && (r.Ok? ==>
            && d.labels == db.labels - {id}
            && d.tasks == db.tasks
            && (forall p :: p in d.assoc <==> p in db.assoc && p.1 != id)
            && (forall t :: LabelIdsOfTask(d, t) == LabelIdsOfTask(db, t) - {id})
            && d.matrices == db.matrices[m := db.matrices[m].(updatedAt := now)]
            && db.matrices[m].updatedAt <= now)
  {
    var (d, r) := DeleteLabel(db, m, id, now);
    if r.Ok? {
      var d1 := db.(labels := db.labels - {id}, assoc := WithoutLabel(db.assoc, id), clock := now);
      assert Valid(d1);
      TouchPreservesValid(d1, m, now);
      forall t ensures LabelIdsOfTask(d, t) == LabelIdsOfTask(db, t) - {id} {
        forall l | l in LabelIdsOfTask(db, t) - {id} ensures l in LabelIdsOfTask(d, t) {
          assert (t, l) in d.assoc;
        }
      }
    }
  }

  /** Creating a label and then deleting it gives back the labels and the
      association of before. */
  lemma CreateThenDeleteLabel(db: Db, m: string, p: LabelCreate, now: nat, later: nat)
    requires Valid(db) && db.clock <= now
    requires CreateLabel(db, m, p, now).1.Ok?
    ensures var (d, r) := CreateLabel(db, m, p, now);
      var (e, s) := DeleteLabel(d, m, r.value.id, later);
      s.Ok? && e.labels == db.labels && e.assoc == db.assoc && e.tasks == db.tasks
  {
    var (d, r) := CreateLabel(db, m, p, now);
    CreateLabelResult(db, m, p, now);
    var (e, s) := DeleteLabel(d, m, r.value.id, later);
    assert e.labels == db.labels;
    forall q | q in db.assoc ensures q.1 != r.value.id {
    }
    assert e.assoc == db.assoc;
  }

  /** Ids are reused: once the label just created is deleted again, the next
      label created gets its id, since a new row's id is one more than the
      largest id present. */
  lemma DeletedLabelIdIsReused(db: Db, m: string, p: LabelCreate, q: LabelCreate, now: nat, later: nat, latest: nat)
    requires Valid(db) && db.clock <= now
    requires CreateLabel(db, m, p, now).1.Ok?
    ensures var (d, r) := CreateLabel(db, m, p, now);
      var (e, _) := DeleteLabel(d, m, r.value.id, later);
      var (_, s) := CreateLabel(e, m, q, latest);
      s.Ok? ==> s.value.id == r.value.id
  {
    CreateThenDeleteLabel(db, m, p, now, later);
  }

  // ---------------------------------------------------------------------------
  // Tasks

  /** Every id resolves to a label of matrix `m`. */
  ghost predicate AllResolve(db: Db, m: string, ids: seq<int>) {
    forall i :: 0 <= i < |ids| ==> LabelUnder(db, m, ids[i])
  }

  /** The association pairs that attach the labels `ids` to task `t`. */
  ghost function Pairs(t: int, ids: seq<int>): set<(int, int)> {
    set i | 0 <= i < |ids| :: (t, ids[i])
  }

  /** The association without the pairs of task `t`. */
  function WithoutTask(assoc: set<(int, int)>, t: int): set<(int, int)> {
    set p | p in assoc && p.0 != t
  }

  /** Task creation: the matrix first, then every requested label id in turn;
      nothing is stored unless all of them resolve. */
  ghost function CreateTask(db: Db, m: string, p: TaskCreate, now: nat): (Db, Outcome<Task>) {
    if m !in db.matrices then (db, NotFound)
    else if !AllResolve(db, m, RequestedLabelIds(p)) then (db, NotFound)
    else
      var t := Task(NextRowid(db.tasks.Keys), m, p.title, p.description, p.quadrant, now, now);
      var d := db.(tasks := db.tasks[t.id := t],
                   assoc := db.assoc + Pairs(t.id, RequestedLabelIds(p)),
                   clock := now);
      (Touch(d, m, now), Ok(t))
  }

  /** Task update: the task must exist under this matrix; the columns are
      patched; a supplied label list replaces the task's labels, and nothing
      is stored unless all of its ids resolve. */
  ghost function UpdateTask(db: Db, m: string, id: int, u: TaskUpdate, now: nat): (Db, Outcome<Task>)
    requires UpdateFitsColumns(u)
  {
    if !TaskUnder(db, m, id) then (db, NotFound)
    else
      var t := ApplyTaskUpdate(db.tasks[id], u, now);
      match NewLabelIds(u.labelIds)
      case None =>
        (Touch(db.(tasks := db.tasks[id := t], clock := now), m, now), Ok(t))
      case Some(ids) =>
        if !AllResolve(db, m, ids) then (db, NotFound)
        else
          var d := db.(tasks := db.tasks[id := t],
                       assoc := WithoutTask(db.assoc, id) + Pairs(id, ids),
                       clock := now);
          (Touch(d, m, now), Ok(t))
  }

  /** Task deletion: the task and every association pair naming it go. */
  ghost function DeleteTask(db: Db, m: string, id: int, now: nat): (Db, Outcome<()>) {
    if !TaskUnder(db, m, id) then (db, NotFound)
    else (Touch(db.(tasks := db.tasks - {id}, assoc := WithoutTask(db.assoc, id), clock := now), m, now), Ok(()))
  }

  lemma PairsLabels(db: Db, t: int, ids: seq<int>)
    ensures forall p :: p in Pairs(t, ids) <==> p.0 == t && p.1 in ids
  {
    forall p: (int, int) | p.0 == t && p.1 in ids ensures p in Pairs(t, ids) {
      var i :| 0 <= i < |ids| && ids[i] == p.1;
    }
  }

  /** The label set of task `t` after its pairs are replaced by `ids`. */
  lemma ReplacedLabelIds(assoc: set<(int, int)>, db: Db, t: int, ids: seq<int>)
    requires db.assoc == WithoutTask(assoc, t) + Pairs(t, ids)
    ensures LabelIdsOfTask(db, t) == set l | l in ids
    ensures forall s :: s != t ==> LabelIdsOfTask(db, s) == LabelIdsOfTask(db.(assoc := assoc), s)
  {
    PairsLabels(db, t, ids);
    forall l | l in ids ensures l in LabelIdsOfTask(db, t) {
      assert (t, l) in db.assoc;
    }
    forall s, l | s != t && l in LabelIdsOfTask(db.(assoc := assoc), s)
      ensures l in LabelIdsOfTask(db, s)
    {
      assert (s, l) in db.assoc;
    }
  }

  lemma CreateTaskResult(db: Db, m: string, p: TaskCreate, now: nat)
    requires Valid(db) && db.clock <= now
    ensures var (d, r) := CreateTask(db, m, p, now);
      && Valid(d)
      && !r.Conflict?
      && (r.NotFound? <==>
            m !in db.matrices || exists l :: l in RequestedLabelIds(p) && !LabelUnder(db, m, l))
      && (!r.Ok? ==> d == db)
      && (r.Ok? ==>
            && (forall k :: k in db.tasks ==> k < r.value.id)
            && (r.value.id == 1 || r.value.id - 1 in db.tasks)
            && r.value == Task(r.value.id, m, p.title, p.description, p.quadrant, now, now)
            && d.tasks == db.tasks[r.value.id := r.value]
            && d.labels == db.labels
            && LabelIdsOfTask(d, r.value.id) == (set l | l in RequestedLabelIds(p))
            && (forall t :: t in db.tasks ==> LabelIdsOfTask(d, t) == LabelIdsOfTask(db, t))
            && d.matrices == db.matrices[m := db.matrices[m].(updatedAt := now)]
            && db.matrices[m].updatedAt <= now)
  {
    var (d, r) := CreateTask(db, m, p, now);
    var ids := RequestedLabelIds(p);
    if m in db.matrices && !AllResolve(db, m, ids) {
      var i :| 0 <= i < |ids| && !LabelUnder(db, m, ids[i]);
      assert ids[i] in ids;
    }
    if r.Ok? {
      var t := r.value;
      var d1 := db.(tasks := db.tasks[t.id := t], assoc := db.assoc + Pairs(t.id, ids), clock := now);
      PairsLabels(db, t.id, ids);
      assert AssocWellFormed(d1) by {
        forall q | q in d1.assoc
          ensures q.0 in d1.tasks && q.1 in d1.labels && d1.tasks[q.0].matrixId == d1.labels[q.1].matrixId
        {
          if q in Pairs(t.id, ids) {
            var i :| 0 <= i < |ids| && q == (t.id, ids[i]);
          }
        }
      }
      assert Valid(d1);
      TouchPreservesValid(d1, m, now);
      assert WithoutTask(d1.assoc, t.id) + Pairs(t.id, ids) == d1.assoc;
      ReplacedLabelIds(db.assoc, d1, t.id, ids);
      assert WithoutTask(db.assoc, t.id) == db.assoc;
    }
  }

  lemma UpdateTaskResult(db: Db, m: string, id: int, u: TaskUpdate, now: nat)
    requires Valid(db) && db.clock <= now && UpdateFitsColumns(u)
    ensures var (d, r) := UpdateTask(db, m, id, u, now);
      && Valid(d)
      && !r.Conflict?
      && (r.NotFound? <==>
            !TaskUnder(db, m, id) ||
            (u.labelIds.SetTo? && exists l :: l in u.labelIds.value && !LabelUnder(db, m, l)))
      && (!r.Ok? ==> d == db)
      && (r.Ok? ==>
            && r.value == ApplyTaskUpdate(db.tasks[id], u, now)
            && d.tasks == db.tasks[id := r.value]
            && d.labels == db.labels
            && (u.labelIds.Unset? ==> d.assoc == db.assoc)
            && (u.labelIds.Null? ==> LabelIdsOfTask(d, id) == {})
            && (u.labelIds.SetTo? ==> LabelIdsOfTask(d, id) == set l | l in u.labelIds.value)
            && (forall t :: t != id ==> LabelIdsOfTask(d, t) == LabelIdsOfTask(db, t))
            && d.matrices == db.matrices[m := db.matrices[m].(updatedAt := now)]
            && db.matrices[m].updatedAt <= now)
  {
    var (d, r) := UpdateTask(db, m, id, u, now);
    if u.labelIds.SetTo? && TaskUnder(db, m, id) && !AllResolve(db, m, u.labelIds.value) {
      var ids := u.labelIds.value;
      var i :| 0 <= i < |ids| && !LabelUnder(db, m, ids[i]);
      assert ids[i] in ids;
    }
    if r.Ok? {
      var t := r.value;
      match NewLabelIds(u.labelIds)
      case None =>
        var d1 := db.(tasks := db.tasks[id := t], clock := now);
        assert Valid(d1);
        TouchPreservesValid(d1, m, now);
      case Some(ids) =>
        var d1 := db.(tasks := db.tasks[id := t], assoc := WithoutTask(db.assoc, id) + Pairs(id, ids), clock := now);
        PairsLabels(db, id, ids);
        assert AssocWellFormed(d1) by {
          forall q | q in d1.assoc
            ensures q.0 in d1.tasks && q.1 in d1.labels && d1.tasks[q.0].matrixId == d1.labels[q.1].matrixId
          {
            if q in Pairs(id, ids) {
              var i :| 0 <= i < |ids| && q == (id, ids[i]);
            }
          }
        }
        assert Valid(d1);
        TouchPreservesValid(d1, m, now);
        ReplacedLabelIds(db.assoc, d1, id, ids);
    }
  }

  lemma DeleteTaskResult(db: Db, m: string, id: int, now: nat)
    requires Valid(db) && db.clock <= now
    ensures var (d, r) := DeleteTask(db, m, id, now);
      && Valid(d)
      && (r.NotFound? <==> !TaskUnder(db, m, id))
      && (!r.Ok? ==> d == db)
      && (r.Ok? ==>
            && d.tasks == db.tasks - {id}
            && d.labels == db.labels
            && (forall p :: p in d.assoc <==> p in db.assoc && p.0 != id)
            && (forall t :: t != id ==> LabelIdsOfTask(d, t) == LabelIdsOfTask(db, t))
            && LabelIdsOfTask(d, id) == {}
            && d.matrices == db.matrices[m := db.matrices[m].(updatedAt := now)]
            && db.matrices[m].updatedAt <= now)
  {
    var (d, r) := DeleteTask(db, m, id, now);
    if r.Ok? {
      var d1 := db.(tasks := db.tasks - {id}, assoc := WithoutTask(db.assoc, id), clock := now);
      assert Valid(d1);
      TouchPreservesValid(d1, m, now);
      forall t | t != id ensures LabelIdsOfTask(d, t) == LabelIdsOfTask(db, t) {
        forall l | l in LabelIdsOfTask(db, t) ensures l in LabelIdsOfTask(d, t) {
          assert (t, l) in d.assoc;
        }
      }
    }
  }

  /** Creating a task and then deleting it gives back the tasks and the
      association of before. */
  lemma CreateThenDeleteTask(db: Db, m: string, p: TaskCreate, now: nat, later: nat)
    requires Valid(db) && db.clock <= now
    requires CreateTask(db, m, p, now).1.Ok?
    ensures var (d, r) := CreateTask(db, m, p, now);
      var (e, s) := DeleteTask(d, m, r.value.id, later);
      s.Ok? && e.tasks == db.tasks && e.assoc == db.assoc && e.labels == db.labels
  {
    var (d, r) := CreateTask(db, m, p, now);
    CreateTaskResult(db, m, p, now);
    var (e, s) := DeleteTask(d, m, r.value.id, later);
    assert e.tasks == db.tasks;
    PairsLabels(db, r.value.id, RequestedLabelIds(p));
    forall q | q in db.assoc ensures q.0 != r.value.id {
    }
    assert e.assoc == db.assoc;
  }

  /** The same reuse for tasks. */
  lemma DeletedTaskIdIsReused(db: Db, m: string, p: TaskCreate, q: TaskCreate, now: nat, later: nat, latest: nat)
    requires Valid(db) && db.clock <= now
    requires CreateTask(db, m, p, now).1.Ok?
    ensures var (d, r) := CreateTask(db, m, p, now);
      var (e, _) := DeleteTask(d, m, r.value.id, later);
      var (_, s) := CreateTask(e, m, q, latest);
      s.Ok? ==> s.value.id == r.value.id
  {
    CreateThenDeleteTask(db, m, p, now, later);
  }

  // ---------------------------------------------------------------------------
  // Views

  /** `ls` lists every label of matrix `m` exactly once. */
  ghost predicate IsLabelList(db: Db, m: string, ls: seq<Label>) {
    Distinct(ls) && (set l | l in ls) == LabelsOfMatrix(db, m)
  }

  /** `v` shows a stored task with every one of its labels exactly once. */
  ghost predicate IsTaskView(db: Db, v: TaskInDB) {
    && v.id in db.tasks
    && v == ViewOf(db.tasks[v.id], v.labels)
    && Distinct(v.labels)
    && (set l | l in v.labels) == LabelsOfTask(db, v.id)
  }

  /** The ids of the tasks a list shows. */
  ghost function ViewIds(vs: seq<TaskInDB>): set<int> {
    set i | 0 <= i < |vs| :: vs[i].id
  }

  lemma ViewIdsAppend(vs: seq<TaskInDB>, v: TaskInDB)
    ensures ViewIds(vs + [v]) == ViewIds(vs) + {v.id}
  {
    var ws := vs + [v];
    assert ws[|vs|].id == v.id;
    forall k | k in ViewIds(vs) ensures k in ViewIds(ws) {
      var i :| 0 <= i < |vs| && vs[i].id == k;
      assert ws[i].id == k;
    }
  }

  /** `vs` shows every task of matrix `m` exactly once. */
  ghost predicate IsTaskList(db: Db, m: string, vs: seq<TaskInDB>) {
    && (forall i :: 0 <= i < |vs| ==> IsTaskView(db, vs[i]))
    && (forall i, j :: 0 <= i < j < |vs| ==> vs[i].id != vs[j].id)
    && ViewIds(vs) == TaskIdsOfMatrix(db, m)
  }

  /** `d` shows matrix `m` with all its labels and all its tasks. */
  ghost predicate IsMatrixDetail(db: Db, m: string, d: MatrixDetail) {
    && m in db.matrices
    && d.id == m
    && d.createdAt == db.matrices[m].createdAt
    && d.updatedAt == db.matrices[m].updatedAt
    && IsLabelList(db, m, d.labels)
    && IsTaskList(db, m, d.tasks)
  }
}
