/** The end-to-end walk through the service: one matrix, a label, a rejected
    duplicate, a task carrying the label, the label's deletion, and the
    matrix's deletion. */
module Scenario {
  import opened Results
  import opened Models
  import opened Schemas
  import RouteSpec
  import Routes

  /** A fresh store holding one matrix with one label "Work". */
  method OneLabel() returns (s: Routes.Store, m: string, work: Label)
    ensures fresh(s) && s.Valid()
    ensures m in s.matrices && s.labels == map[work.id := work]
    ensures work.id == 1 && work.matrixId == m && work.name == "Work" && work.color == Some("#FF0000")
    ensures s.tasks == map[] && s.clock == 2
  {
    s := new Routes.Store();
    ghost var d0 := s.Snapshot();
    var mr := s.CreateMatrix(1);
    m := mr.id;
    RouteSpec.CreateMatrixResult(d0, m, 1);
    ghost var d1 := s.Snapshot();
    RouteSpec.CreateLabelResult(d1, m, LabelCreate("Work", Some("#FF0000")), 2);
    var l := s.CreateLabel(m, LabelCreate("Work", Some("#FF0000")), 2);
    work := l.value;
  }

  /** A second label with the same name is refused and changes nothing. */
  method Duplicate(s: Routes.Store, m: string, work: Label) returns (dup: Outcome<Label>)
    requires s.Valid() && m in s.matrices && work.id in s.labels && s.labels[work.id] == work
    requires work.matrixId == m && work.name == "Work" && s.clock <= 3
    modifies s
    ensures dup == Conflict && s.Snapshot() == old(s.Snapshot())
  {
    ghost var d := s.Snapshot();
    RouteSpec.CreateLabelResult(d, m, LabelCreate("Work", None), 3);
    assert NameTaken(d, m, "Work", None);
    dup := s.CreateLabel(m, LabelCreate("Work", None), 3);
  }

  /** A task created with the label's id carries exactly that label. */
  method TaggedTask(s: Routes.Store, m: string, work: Label) returns (t: TaskInDB)
    requires s.Valid() && m in s.matrices && s.labels == map[work.id := work] && work.matrixId == m
    requires s.clock <= 4
    modifies s
    ensures s.Valid() && t.id in s.tasks && s.labels == old(s.labels) && s.matrices.Keys == old(s.matrices.Keys)
    ensures t.title == "Write report" && t.quadrant == "urgent_important" && t.labels == [work]
    ensures s.clock == 4
  {
    ghost var d := s.Snapshot();
    var p := TaskCreate("Write report", None, "urgent_important", Some([work.id]));
    RouteSpec.CreateTaskResult(d, m, p, 4);
    assert RouteSpec.AllResolve(d, m, [work.id]);
    var r := s.CreateTask(m, p, 4);
    t := r.value;
    assert LabelIdsOfTask(s.Snapshot(), t.id) == {work.id};
    assert LabelsOfTask(s.Snapshot(), t.id) == {work} by {
      assert (t.id, work.id) in s.assoc;
    }
    ghost var shown := set x | x in t.labels;
    assert shown == {work};
    forall x ensures x in t.labels <==> x in {work} {
      assert x in t.labels <==> x in shown;
    }
    DistinctLength(t.labels, {work});
    assert t.labels == [t.labels[0]];
    assert t.labels[0] in t.labels;
  }

  /** Deleting the label leaves the task with no labels. */
  method DropLabel(s: Routes.Store, m: string, work: Label, id: int) returns (after: seq<Label>)
    requires s.Valid() && id in s.tasks && s.labels == map[work.id := work] && work.matrixId == m
    requires s.clock <= 5
    modifies s
    ensures s.Valid() && after == []
  {
    ghost var d := s.Snapshot();
    RouteSpec.DeleteLabelResult(d, m, work.id, 5);
    var deleted := s.DeleteLabel(m, work.id, 5);
    assert LabelIdsOfTask(s.Snapshot(), id) == {};
    assert s.labels == map[];
    assert LabelsOfTask(s.Snapshot(), id) == {};
    var v := s.TaskView(id);
    after := v.labels;
    ghost var shown := set x | x in after;
    assert shown == {};
    forall x ensures x in after <==> x in shown {
    }
    DistinctLength(after, shown);
  }

  /** On a fresh store: the second "Work" label is refused, the task is
      created carrying the first one, it carries nothing once that label is
      deleted, and the matrix is not found once deleted. */
  method Walkthrough() returns (dup: Outcome<Label>, before: seq<Label>, after: seq<Label>, gone: Outcome<MatrixDetail>)
    ensures dup == Conflict
    ensures |before| == 1 && before[0].name == "Work" && before[0].color == Some("#FF0000")
    ensures after == []
    ensures gone == NotFound
  {
    var s, m, work := OneLabel();
    dup := Duplicate(s, m, work);
    var t := TaggedTask(s, m, work);
    before := t.labels;
    after := DropLabel(s, m, work, t.id);
    s.DeleteMatrix(m);
    gone := s.GetMatrixDetails(m);
  }
}
