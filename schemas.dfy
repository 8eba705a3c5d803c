/** Request payloads and response views of the HTTP interface, and what a
    partial-update payload does to a stored row. */
module Schemas {
  import opened Results
  import opened Models

  // ---------------------------------------------------------------------------
  // Payloads

  /** `name` is required; an omitted `color` is None. */
  datatype LabelCreate = LabelCreate(name: string, color: Option<string>)

  /** Both fields optional; None (omitted or null) means "leave unchanged". */
  datatype LabelUpdate = LabelUpdate(name: Option<string>, color: Option<string>)

  /** `title` and `quadrant` are required; an omitted `description` is None;
      an omitted `label_ids` is the empty list, and null is also accepted. */
  datatype TaskCreate = TaskCreate(
    title: string,
    description: Option<string>,
    quadrant: string,
    labelIds: Option<seq<int>>)

  /** Every field optional, each one three-way: left out, null, or a value. */
  datatype TaskUpdate = TaskUpdate(
    title: Patch<string>,
    description: Patch<string>,
    quadrant: Patch<string>,
    labelIds: Patch<seq<int>>)

  // ---------------------------------------------------------------------------
  // Views. A label view has exactly the columns of a label row, so the model
  // uses `Label` itself for it.

  /** A task with its labels as full records, never bare ids. */
  datatype TaskInDB = TaskInDB(
    id: int,
    matrixId: string,
    title: string,
    description: Option<string>,
    quadrant: string,
    createdAt: nat,
    updatedAt: nat,
    labels: seq<Label>)

  /** The answer to matrix creation: the row plus a derived link. */
  datatype MatrixResponse = MatrixResponse(
    id: string,
    createdAt: nat,
    updatedAt: nat,
    sharableLink: string)

  /** The answer to a matrix fetch: the row with all its labels and tasks. */
  datatype MatrixDetail = MatrixDetail(
    id: string,
    createdAt: nat,
    updatedAt: nat,
    labels: seq<Label>,
    tasks: seq<TaskInDB>)

  const LinkPrefix: string := "https://example.com/matrix/"

  /** The sharable link embeds the matrix id after a fixed prefix. */
  function SharableLink(id: string): (link: string)
    ensures |link| == |LinkPrefix| + |id|
    ensures link[..|LinkPrefix|] == LinkPrefix && link[|LinkPrefix|..] == id
  {
    LinkPrefix + id
  }

  /** The link determines the matrix id. */
  lemma SharableLinkInjective(a: string, b: string)
    requires SharableLink(a) == SharableLink(b)
    ensures a == b
  {
    assert a == SharableLink(a)[|LinkPrefix|..];
  }

  function ViewOf(t: Task, ls: seq<Label>): (v: TaskInDB)
    ensures v.id == t.id && v.labels == ls
  {
    TaskInDB(t.id, t.matrixId, t.title, t.description, t.quadrant, t.createdAt, t.updatedAt, ls)
  }

  // ---------------------------------------------------------------------------
  // What the payloads mean

  /** The ids a task is created with: an omitted list, null and [] all give
      no labels. */
  function RequestedLabelIds(p: TaskCreate): (ids: seq<int>)
    ensures p.labelIds.None? ==> ids == []
    ensures p.labelIds.Some? ==> ids == p.labelIds.value
  {
    p.labelIds.GetOr([])
  }

  /** The replacement label list a task update asks for: None leaves the
      associations alone; null and [] both clear them; a list replaces them. */
  function NewLabelIds(ids: Patch<seq<int>>): (r: Option<seq<int>>)
    ensures ids.Unset? <==> r.None?
    ensures ids.Null? ==> r == Some([])
    ensures ids.SetTo? ==> r == Some(ids.value)
  {
    match ids
    case Unset => None
    case Null => Some([])
    case SetTo(v) => Some(v)
  }

  /** `title` and `quadrant` are non-null columns: an update that sends an
      explicit null for either would break the column constraint on commit. */
  predicate UpdateFitsColumns(u: TaskUpdate) {
    !u.title.Null? && !u.quadrant.Null?
  }

  /** A label after a partial update arriving at time `now`. The row's
      `updated_at` moves to `now` exactly when a column value changes. */
  function ApplyLabelUpdate(l: Label, u: LabelUpdate, now: nat): (r: Label)
    ensures r.id == l.id && r.matrixId == l.matrixId && r.createdAt == l.createdAt
    ensures r.name == (if u.name.Some? then u.name.value else l.name)
    ensures r.color == (if u.color.Some? then u.color else l.color)
    ensures u.name.None? && u.color.None? ==> r == l
    ensures r.name == l.name && r.color == l.color ==> r == l
    ensures r.name != l.name || r.color != l.color ==> r.updatedAt == now
    ensures l.updatedAt <= now ==> l.updatedAt <= r.updatedAt <= now
  {
    var patched := l.(name := u.name.GetOr(l.name),
                      color := if u.color.Some? then u.color else l.color);
    if patched == l then l else patched.(updatedAt := now)
  }

  /** A stored value after a three-way update of a non-null column. */
  function PatchValue(p: Patch<string>, current: string): string
    requires !p.Null?
  {
    if p.SetTo? then p.value else current
  }

  /** A stored value after a three-way update of a nullable column. */
  function PatchOption(p: Patch<string>, current: Option<string>): Option<string> {
    match p
    case Unset => current
    case Null => None
    case SetTo(v) => Some(v)
  }

  /** A task's columns after a partial update arriving at time `now`: fields
      left out keep their value, a null description clears it, and
      `updated_at` moves to `now` exactly when a column value changes. The
      label list is not a column; it is handled by the association. */
  function ApplyTaskUpdate(t: Task, u: TaskUpdate, now: nat): (r: Task)
    requires UpdateFitsColumns(u)
    ensures r.id == t.id && r.matrixId == t.matrixId && r.createdAt == t.createdAt
    ensures u.title.Unset? ==> r.title == t.title
    ensures u.title.SetTo? ==> r.title == u.title.value
    ensures u.description.Unset? ==> r.description == t.description
    ensures u.description.Null? ==> r.description == None
    ensures u.description.SetTo? ==> r.description == Some(u.description.value)
    ensures u.quadrant.Unset? ==> r.quadrant == t.quadrant
    ensures u.quadrant.SetTo? ==> r.quadrant == u.quadrant.value
    ensures u.title.Unset? && u.description.Unset? && u.quadrant.Unset? ==> r == t
    ensures r.title == t.title && r.description == t.description && r.quadrant == t.quadrant ==> r == t
    ensures r.title != t.title || r.description != t.description || r.quadrant != t.quadrant ==>
      r.updatedAt == now
    ensures t.updatedAt <= now ==> t.updatedAt <= r.updatedAt <= now
  {
    var patched := t.(title := PatchValue(u.title, t.title),
                      description := PatchOption(u.description, t.description),
                      quadrant := PatchValue(u.quadrant, t.quadrant));
    if patched == t then t else patched.(updatedAt := now)
  }

  /** Sending the same partial update twice at the same time is the same as
      sending it once. */
  lemma ApplyLabelUpdateIdempotent(l: Label, u: LabelUpdate, now: nat)
    ensures ApplyLabelUpdate(ApplyLabelUpdate(l, u, now), u, now) == ApplyLabelUpdate(l, u, now)
  {
  }

  lemma ApplyTaskUpdateIdempotent(t: Task, u: TaskUpdate, now: nat)
    requires UpdateFitsColumns(u)
    ensures ApplyTaskUpdate(ApplyTaskUpdate(t, u, now), u, now) == ApplyTaskUpdate(t, u, now)
  {
  }
}
