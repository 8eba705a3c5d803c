/** The route handlers as methods of one `Store` object whose fields are the
    tables of the database. Every handler runs as one transaction: it checks
    first and writes only once every check has passed, so a handler that
    answers NotFound or Conflict leaves the store as it was. Each mutating
    method is proved to end in the state, and with the answer, that the
    matching function of `RouteSpec` gives. */
module Routes {
  import opened Results
  import opened Models
  import opened Schemas
  import RouteSpec

  class Store {
    var matrices: map<string, Matrix>
    var labels: map<int, Label>
    var tasks: map<int, Task>
    var assoc: set<(int, int)>
    var clock: nat

    /** The store's tables as one value. */
    function Snapshot(): Db
      reads this
    {
      Db(matrices, labels, tasks, assoc, clock)
    }

    ghost predicate Valid()
      reads this
    {
      Models.Valid(Snapshot())
    }

    /** An empty database. */
    constructor ()
      ensures Valid() && Snapshot() == EmptyDb()
    {
      matrices, labels, tasks, assoc := map[], map[], map[], {};
      clock := 0;
    }

    // -------------------------------------------------------------------------
    // Helpers

    /** The intended "update matrix timestamp" helper: an absent matrix is left
        alone. */
    method TouchMatrix(m: string, now: nat)
      modifies this
      ensures Snapshot() == RouteSpec.Touch(old(Snapshot()), m, now)
    {
      if m in matrices {
        matrices := matrices[m := matrices[m].(updatedAt := now)];
      }
    }

    /** A matrix id not yet in use, standing for a random UUID: a string longer
        than every existing id. */
    method FreshMatrixId() returns (id: string)
      ensures id !in matrices
    {
      var n: nat := 0;
      var rest := matrices.Keys;
      while |rest| > 0
        invariant rest <= matrices.Keys
        invariant forall k :: k in matrices && k !in rest ==> |k| < n
        decreases |rest|
      {
        var k :| k in rest;
        if n <= |k| {
          n := |k| + 1;
        }
        rest := rest - {k};
      }
      id := seq(n, _ => 'x');
    }

    /** All labels of matrix `m`, each once, read in ascending id order. */
    method LabelList(m: string) returns (ls: seq<Label>)
      requires Valid()
      ensures RouteSpec.IsLabelList(Snapshot(), m, ls)
    {
      var bound := IdBound(labels);
      ls := [];
      var i := 1;
      while i < bound
        invariant 1 <= i <= bound
        invariant Distinct(ls)
        invariant forall l :: l in ls ==> l.id in labels && l.id < i && labels[l.id] == l && l.matrixId == m
        invariant forall k :: k in labels && k < i && labels[k].matrixId == m ==> labels[k] in ls
      {
        if i in labels && labels[i].matrixId == m {
          ls := ls + [labels[i]];
        }
        i := i + 1;
      }
      forall l | l in LabelsOfMatrix(Snapshot(), m) ensures l in ls {
        var k :| k in labels && labels[k].matrixId == m && l == labels[k];
      }
    }

    /** Task `id` with every one of its labels, each once. */
    method TaskView(id: int) returns (v: TaskInDB)
      requires Valid() && id in tasks
      ensures v.id == id && RouteSpec.IsTaskView(Snapshot(), v)
    {
      var bound := IdBound(labels);
      var ls: seq<Label> := [];
      var i := 1;
      while i < bound
        invariant 1 <= i <= bound
        invariant Distinct(ls)
        invariant forall l :: l in ls ==> l.id in labels && l.id < i && labels[l.id] == l && (id, l.id) in assoc
        invariant forall k :: k in labels && k < i && (id, k) in assoc ==> labels[k] in ls
      {
        if i in labels && (id, i) in assoc {
          ls := ls + [labels[i]];
        }
        i := i + 1;
      }
      forall l | l in LabelsOfTask(Snapshot(), id) ensures l in ls {
        var k :| k in labels && (id, k) in assoc && l == labels[k];
      }
      v := ViewOf(tasks[id], ls);
    }

    /** All tasks of matrix `m`, each once, each with its labels, read in
        ascending id order. */
    method TaskList(m: string) returns (vs: seq<TaskInDB>)
      requires Valid()
      ensures RouteSpec.IsTaskList(Snapshot(), m, vs)
    {
      var bound := IdBound(tasks);
      vs := [];
      var i := 1;
      while i < bound
        invariant 1 <= i <= bound
        invariant forall j :: 0 <= j < |vs| ==> RouteSpec.IsTaskView(Snapshot(), vs[j])
        invariant forall j :: 0 <= j < |vs| ==> vs[j].id < i
        invariant forall j, j' :: 0 <= j < j' < |vs| ==> vs[j].id != vs[j'].id
        invariant forall k :: k in RouteSpec.ViewIds(vs) <==> k in tasks && k < i && tasks[k].matrixId == m
      {
        if i in tasks && tasks[i].matrixId == m {
          var v := TaskView(i);
          RouteSpec.ViewIdsAppend(vs, v);
          vs := vs + [v];
        }
        i := i + 1;
      }
    }

    // -------------------------------------------------------------------------
    // Matrix endpoints

    method CreateMatrix(now: nat) returns (r: MatrixResponse)
      requires Valid() && clock <= now
      modifies this
      ensures Valid()
      ensures r.id !in old(matrices)
      ensures (Snapshot(), r) == RouteSpec.CreateMatrix(old(Snapshot()), r.id, now)
    {
      var id := FreshMatrixId();
      RouteSpec.CreateMatrixResult(Snapshot(), id, now);
      matrices := matrices[id := Matrix(id, now, now)];
      clock := now;
      r := MatrixResponse(id, now, now, SharableLink(id));
    }

    method GetMatrixDetails(m: string) returns (r: Outcome<MatrixDetail>)
      requires Valid()
      ensures r.NotFound? <==> m !in matrices
      ensures r.Ok? ==> RouteSpec.IsMatrixDetail(Snapshot(), m, r.value)
      ensures !r.Conflict?
    {
      if m !in matrices {
        return NotFound;
      }
      var ls := LabelList(m);
      var vs := TaskList(m);
      r := Ok(MatrixDetail(m, matrices[m].createdAt, matrices[m].updatedAt, ls, vs));
    }

    // -------------------------------------------------------------------------
    // Label endpoints

    method CreateLabel(m: string, p: LabelCreate, now: nat) returns (r: Outcome<Label>)
      requires Valid() && clock <= now
      modifies this
      ensures Valid()
      ensures (Snapshot(), r) == RouteSpec.CreateLabel(old(Snapshot()), m, p, now)
    {
      RouteSpec.CreateLabelResult(Snapshot(), m, p, now);
      if m !in matrices {
        return NotFound;
      }
      if NameTaken(Snapshot(), m, p.name, None) {
        return Conflict;
      }
      var id := NextRowidOf(labels);
      var l := Label(id, m, p.name, p.color, now, now);
      labels := labels[l.id := l];
      clock := now;
      TouchMatrix(m, now);
      r := Ok(l);
    }

    method GetLabels(m: string) returns (r: Outcome<seq<Label>>)
      requires Valid()
      ensures r.NotFound? <==> m !in matrices
      ensures r.Ok? ==> RouteSpec.IsLabelList(Snapshot(), m, r.value)
      ensures !r.Conflict?
    {
      if m !in matrices {
        return NotFound;
      }
      var ls := LabelList(m);
      r := Ok(ls);
    }

    method UpdateLabel(m: string, id: int, u: LabelUpdate, now: nat) returns (r: Outcome<Label>)
      requires Valid() && clock <= now
      modifies this
      ensures Valid()
      ensures (Snapshot(), r) == RouteSpec.UpdateLabel(old(Snapshot()), m, id, u, now)
    {
      RouteSpec.UpdateLabelResult(Snapshot(), m, id, u, now);
      if !(id in labels && labels[id].matrixId == m) {
        return NotFound;
      }
      var l := labels[id];
      if u.name.Some? {
        if NameTaken(Snapshot(), m, u.name.value, Some(id)) {
          return Conflict;
        }
        l := l.(name := u.name.value);
      }
      if u.color.Some? {
        l := l.(color := u.color);
      }
      if l != labels[id] {
        l := l.(updatedAt := now);
      }
      labels := labels[id := l];
      clock := now;
      TouchMatrix(m, now);
      r := Ok(l);
    }

    method DeleteLabel(m: string, id: int, now: nat) returns (r: Outcome<()>)
      requires Valid() && clock <= now
      modifies this
      ensures Valid()
      ensures (Snapshot(), r) == RouteSpec.DeleteLabel(old(Snapshot()), m, id, now)
    {
      RouteSpec.DeleteLabelResult(Snapshot(), m, id, now);
      if !(id in labels && labels[id].matrixId == m) {
        return NotFound;
      }
      labels := labels - {id};
      assoc := RouteSpec.WithoutLabel(assoc, id);
      clock := now;
      TouchMatrix(m, now);
      r := Ok(());
    }

    // -------------------------------------------------------------------------
    // Task endpoints

    /** Attaches each id of `ids` in order to task `t`, provided it is a label
        of matrix `m`; stops at the first id that is not. Only the pairs are
        computed; nothing is stored. */
    method ResolveLabels(m: string, t: int, ids: seq<int>) returns (pairs: Option<set<(int, int)>>)
      ensures pairs.Some? <==> RouteSpec.AllResolve(Snapshot(), m, ids)
      ensures pairs.Some? ==> pairs.value == RouteSpec.Pairs(t, ids)
    {
      var acc: set<(int, int)> := {};
      var i := 0;
      while i < |ids|
        invariant 0 <= i <= |ids|
        invariant forall j :: 0 <= j < i ==> LabelUnder(Snapshot(), m, ids[j])
        invariant acc == set j | 0 <= j < i :: (t, ids[j])
      {
        if !(ids[i] in labels && labels[ids[i]].matrixId == m) {
          return None;
        }
        acc := acc + {(t, ids[i])};
        i := i + 1;
      }
      pairs := Some(acc);
    }

    method CreateTask(m: string, p: TaskCreate, now: nat) returns (r: Outcome<TaskInDB>)
      requires Valid() && clock <= now
      modifies this
      ensures Valid()
      ensures var (d, out) := RouteSpec.CreateTask(old(Snapshot()), m, p, now);
        && Snapshot() == d
        && (r.NotFound? <==> out.NotFound?) && !r.Conflict?
        && (r.Ok? ==> out.Ok? && r.value == ViewOf(out.value, r.value.labels)
                      && RouteSpec.IsTaskView(Snapshot(), r.value))
    {
      ghost var before := Snapshot();
      RouteSpec.CreateTaskResult(before, m, p, now);
      if m !in matrices {
        return NotFound;
      }
      var tid := NextRowidOf(tasks);
      var t := Task(tid, m, p.title, p.description, p.quadrant, now, now);
      var pairs := ResolveLabels(m, t.id, RequestedLabelIds(p));
      if pairs.None? {
        return NotFound;
      }
      tasks := tasks[t.id := t];
      assoc := assoc + pairs.value;
      clock := now;
      assert Snapshot() == before.(tasks := before.tasks[t.id := t],
                                   assoc := before.assoc + RouteSpec.Pairs(t.id, RequestedLabelIds(p)),
                                   clock := now);
      TouchMatrix(m, now);
      assert Snapshot() == RouteSpec.CreateTask(before, m, p, now).0;
      var v := TaskView(t.id);
      r := Ok(v);
    }

    method GetTasks(m: string) returns (r: Outcome<seq<TaskInDB>>)
      requires Valid()
      ensures r.NotFound? <==> m !in matrices
      ensures r.Ok? ==> RouteSpec.IsTaskList(Snapshot(), m, r.value)
      ensures !r.Conflict?
    {
      if m !in matrices {
        return NotFound;
      }
      var vs := TaskList(m);
      r := Ok(vs);
    }

    method UpdateTask(m: string, id: int, u: TaskUpdate, now: nat) returns (r: Outcome<TaskInDB>)
      requires Valid() && clock <= now
      requires UpdateFitsColumns(u)
      modifies this
      ensures Valid()
      ensures var (d, out) := RouteSpec.UpdateTask(old(Snapshot()), m, id, u, now);
        && Snapshot() == d
        && (r.NotFound? <==> out.NotFound?) && !r.Conflict?
        && (r.Ok? ==> out.Ok? && r.value == ViewOf(out.value, r.value.labels)
                      && RouteSpec.IsTaskView(Snapshot(), r.value))
    {
      RouteSpec.UpdateTaskResult(Snapshot(), m, id, u, now);
      if !(id in tasks && tasks[id].matrixId == m) {
        return NotFound;
      }
      var t := PatchTask(tasks[id], u, now);
      var newAssoc := assoc;
      var ids := NewLabelIds(u.labelIds);
      if ids.Some? {
        var pairs := ResolveLabels(m, id, ids.value);
        if pairs.None? {
          return NotFound;
        }
        newAssoc := RouteSpec.WithoutTask(assoc, id) + pairs.value;
      }
      tasks := tasks[id := t];
      assoc := newAssoc;
      clock := now;
      TouchMatrix(m, now);
      var v := TaskView(id);
      r := Ok(v);
    }

    method DeleteTask(m: string, id: int, now: nat) returns (r: Outcome<()>)
      requires Valid() && clock <= now
      modifies this
      ensures Valid()
      ensures (Snapshot(), r) == RouteSpec.DeleteTask(old(Snapshot()), m, id, now)
    {
      RouteSpec.DeleteTaskResult(Snapshot(), m, id, now);
      if !(id in tasks && tasks[id].matrixId == m) {
        return NotFound;
      }
      tasks := tasks - {id};
      assoc := RouteSpec.WithoutTask(assoc, id);
      clock := now;
      TouchMatrix(m, now);
      r := Ok(());
    }

    // -------------------------------------------------------------------------
    // Cascade (no endpoint exposes it)

    /** Deletes matrix `m` with all its labels, its tasks and their association
        pairs. */
    method DeleteMatrix(m: string)
      requires Valid()
      modifies this
      ensures Valid()
      ensures Snapshot() == Models.DeleteMatrix(old(Snapshot()), m)
    {
      DeleteMatrixCascades(Snapshot(), m);
      var goneLabels := set id | id in labels && labels[id].matrixId == m;
      var goneTasks := set id | id in tasks && tasks[id].matrixId == m;
      assoc := set q | q in assoc && q.0 !in goneTasks && q.1 !in goneLabels;
      tasks := tasks - goneTasks;
      labels := labels - goneLabels;
      matrices := matrices - {m};
    }
  }

  /** The id SQLite gives the next row of a table, found in one pass over the
      ids present: one more than the largest, or 1 when there is none. */
  method NextRowidOf<V>(rows: map<int, V>) returns (id: int)
    ensures id == NextRowid(rows.Keys)
  {
    var best := 0;
    var found := false;
    var rest := rows.Keys;
    while rest != {}
      invariant rest <= rows.Keys
      invariant found ==> best in rows
      invariant !found ==> rest == rows.Keys
      invariant forall k :: k in rows && k !in rest ==> k <= best
      decreases |rest|
    {
      NonEmptyHasId(rest);
      var k :| k in rest;
      if !found || best < k {
        best := k;
        found := true;
      }
      rest := rest - {k};
    }
    if found {
      NextRowidUnique(rows.Keys, best + 1);
      id := best + 1;
    } else {
      id := 1;
    }
  }

  /** A bound above every id of a table: the scans over ids run up to it. */
  method IdBound<V>(rows: map<int, V>) returns (bound: int)
    requires forall k :: k in rows ==> 1 <= k
    ensures 1 <= bound && forall k :: k in rows ==> k < bound
  {
    bound := NextRowidOf(rows);
  }

  /** The fields sent in a task update written onto the row one by one, then
      `updated_at` moved to `now` if any column value changed. */
  method PatchTask(t: Task, u: TaskUpdate, now: nat) returns (r: Task)
    requires UpdateFitsColumns(u)
    ensures r == ApplyTaskUpdate(t, u, now)
  {
    r := t;
    if u.title.SetTo? {
      r := r.(title := u.title.value);
    }
    match u.description {
      case Unset =>
      case Null => r := r.(description := None);
      case SetTo(v) => r := r.(description := Some(v));
    }
    if u.quadrant.SetTo? {
      r := r.(quadrant := u.quadrant.value);
    }
    if r != t {
      r := r.(updatedAt := now);
    }
  }
}
