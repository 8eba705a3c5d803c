/** The pure helpers of the single-page client: the quadrant names and the
    backend keys they map to, the per-quadrant task filter, the label
    selection toggle, reading the matrix id from the page path, and the
    checks the client makes before it sends a create request. */
module App {
  import opened Results
  import opened Models
  import opened Schemas
  import RouteSpec

  // ---------------------------------------------------------------------------
  // Quadrants

  /** The four cells of the matrix, as the client lists them. */
  datatype Quadrant = Do | Schedule | Delegate | Delete

  /** The heading shown for each quadrant; the client also uses it as the
      value of the quadrant selectors. */
  function DisplayName(q: Quadrant): string {
    match q
    case Do => "Urgent / Important"
    case Schedule => "Not Urgent / Important"
    case Delegate => "Urgent / Not Important"
    case Delete => "Not Urgent / Not Important"
  }

  /** The key stored in a task's `quadrant` column for each quadrant. */
  function Key(q: Quadrant): string {
    match q
    case Do => "urgent_important"
    case Schedule => "not_urgent_important"
    case Delegate => "urgent_not_important"
    case Delete => "not_urgent_not_important"
  }

  /** The display-name to key lookup: a name that is not one of the four
      headings has no key. */
  function KeyFor(name: string): (r: Option<string>)
    ensures r.Some? <==> exists q: Quadrant :: name == DisplayName(q)
    ensures forall q: Quadrant :: name == DisplayName(q) ==> r == Some(Key(q))
  {
    if name == DisplayName(Do) then Some(Key(Do))
    else if name == DisplayName(Schedule) then Some(Key(Schedule))
    else if name == DisplayName(Delegate) then Some(Key(Delegate))
    else if name == DisplayName(Delete) then Some(Key(Delete))
    else None
  }

  /** Distinct headings map to distinct keys. */
  lemma KeyForInjective(a: string, b: string)
    requires KeyFor(a).Some? && KeyFor(a) == KeyFor(b)
    ensures a == b
  {
  }

  /** The reverse lookup the task card uses to preselect its quadrant: the
      quadrant whose key is `key`, if any. */
  function QuadrantOf(key: string): (r: Option<Quadrant>)
    ensures r.Some? ==> Key(r.value) == key
    ensures r.None? ==> forall q: Quadrant :: Key(q) != key
  {
    if key == Key(Do) then Some(Do)
    else if key == Key(Schedule) then Some(Schedule)
    else if key == Key(Delegate) then Some(Delegate)
    else if key == Key(Delete) then Some(Delete)
    else None
  }

  /** Looking a heading up and then looking its key back up returns the
      quadrant. */
  lemma QuadrantRoundTrip(q: Quadrant)
    ensures KeyFor(DisplayName(q)).Some?
    ensures QuadrantOf(KeyFor(DisplayName(q)).value) == Some(q)
  {
  }

  // ---------------------------------------------------------------------------
  // The quadrant filter

  /** The tasks shown under the heading `name`: those whose stored key equals
      the heading's key, in list order. */
  function TasksForQuadrant(tasks: seq<TaskInDB>, name: string): (r: seq<TaskInDB>)
    ensures forall t :: t in r <==> t in tasks && KeyFor(name) == Some(t.quadrant)
    ensures |r| <= |tasks|
    decreases |tasks|
  {
    if |tasks| == 0 then []
    else
      (if KeyFor(name) == Some(tasks[0].quadrant) then [tasks[0]] else [])
      + TasksForQuadrant(tasks[1..], name)
  }

  /** The filter keeps the order of its input: filtering a concatenation is
      concatenating the filtered parts. */
  lemma {:induction false} TasksForQuadrantAppend(a: seq<TaskInDB>, b: seq<TaskInDB>, name: string)
    ensures TasksForQuadrant(a + b, name) == TasksForQuadrant(a, name) + TasksForQuadrant(b, name)
    decreases |a|
  {
    if |a| == 0 {
      assert a + b == b;
    } else {
      assert (a + b)[1..] == a[1..] + b;
      TasksForQuadrantAppend(a[1..], b, name);
    }
  }

  /** A task shows under exactly the quadrant its key names, and under none
      when its key is not one of the four. */
  lemma QuadrantsPartition(tasks: seq<TaskInDB>, t: TaskInDB, q: Quadrant)
    requires t in tasks
    ensures t in TasksForQuadrant(tasks, DisplayName(q)) <==> QuadrantOf(t.quadrant) == Some(q)
  {
  }

  // ---------------------------------------------------------------------------
  // Label selection for a new task

  /** `s` with every occurrence of `x` removed, order kept. */
  function Without(s: seq<int>, x: int): (r: seq<int>)
    ensures forall y :: y in r <==> y in s && y != x
    ensures |r| <= |s|
    decreases |s|
  {
    if |s| == 0 then []
    else (if s[0] == x then [] else [s[0]]) + Without(s[1..], x)
  }

  /** Removal keeps the order of what remains: removing from a concatenation
      is concatenating the removals from each part. */
  lemma {:induction false} WithoutAppend(a: seq<int>, b: seq<int>, x: int)
    ensures Without(a + b, x) == Without(a, x) + Without(b, x)
    decreases |a|
  {
    if |a| == 0 {
      assert a + b == b;
    } else {
      assert (a + b)[1..] == a[1..] + b;
      WithoutAppend(a[1..], b, x);
    }
  }

  /** Removing an id that is not there changes nothing. */
  lemma {:induction false} WithoutAbsent(s: seq<int>, x: int)
    requires x !in s
    ensures Without(s, x) == s
    decreases |s|
  {
    if |s| > 0 {
      WithoutAbsent(s[1..], x);
    }
  }

  /** Removing an id just appended to a list without it gives the list back. */
  lemma {:induction false} WithoutAppended(s: seq<int>, x: int)
    requires x !in s
    ensures Without(s + [x], x) == s
    decreases |s|
  {
    if |s| == 0 {
      assert Without([x][1..], x) == [];
    } else {
      assert (s + [x])[1..] == s[1..] + [x];
      WithoutAppended(s[1..], x);
    }
  }

  /** Removal keeps a list free of repeats. */
  lemma {:induction false} WithoutDistinct(s: seq<int>, x: int)
    requires Distinct(s)
    ensures Distinct(Without(s, x))
    decreases |s|
  {
    if |s| > 0 {
      assert Distinct(s[1..]) by {
        forall i, j | 0 <= i < j < |s[1..]| ensures s[1..][i] != s[1..][j] {
          assert s[1..][i] == s[i + 1] && s[1..][j] == s[j + 1];
        }
      }
      WithoutDistinct(s[1..], x);
      assert s[0] !in s[1..] by {
        forall j | 0 <= j < |s[1..]| ensures s[1..][j] != s[0] {
          assert s[1..][j] == s[j + 1];
        }
      }
    }
  }

  /** Ticking a label's checkbox: a selected id is deselected, an unselected
      one is appended. */
  function Toggle(prev: seq<int>, id: int): (r: seq<int>)
    ensures id in prev ==> id !in r && forall y :: y != id ==> (y in r <==> y in prev)
    ensures id !in prev ==> r == prev + [id]
  {
    if id in prev then Without(prev, id) else prev + [id]
  }

  /** Ticking an unselected label twice restores the selection. */
  lemma ToggleTwice(prev: seq<int>, id: int)
    requires id !in prev
    ensures Toggle(Toggle(prev, id), id) == prev
  {
    WithoutAppended(prev, id);
  }

  /** A selection built by toggling never holds an id twice, so the label list
      the client sends never repeats an id. */
  lemma ToggleDistinct(prev: seq<int>, id: int)
    requires Distinct(prev)
    ensures Distinct(Toggle(prev, id))
  {
    if id in prev {
      WithoutDistinct(prev, id);
    }
  }

  // ---------------------------------------------------------------------------
  // The page path

  /** `s` cut at every `sep`, as a string split does: the empty string gives
      one empty part, and a leading or trailing separator gives an empty part
      at that end. */
  function Split(s: string, sep: char): (parts: seq<string>)
    ensures |parts| >= 1
    ensures forall i :: 0 <= i < |parts| ==> sep !in parts[i]
    ensures Join(parts, sep) == s
    decreases |s|
  {
    if |s| == 0 then [""]
    else
      var rest := Split(s[1..], sep);
      if s[0] == sep then
        assert Join([""] + rest, sep) == [sep] + Join(rest, sep) by {
          assert ([""] + rest)[1..] == rest;
        }
        [""] + rest
      else
        var parts := [[s[0]] + rest[0]] + rest[1..];
        assert Join(parts, sep) == [s[0]] + Join(rest, sep) by {
          if |rest| > 1 {
            assert parts[1..] == rest[1..];
          }
        }
        parts
  }

  /** The parts glued back together with `sep` between neighbours. */
  function Join(parts: seq<string>, sep: char): string
    requires |parts| >= 1
    decreases |parts|
  {
    if |parts| == 1 then parts[0] else parts[0] + [sep] + Join(parts[1..], sep)
  }

  lemma {:induction false} SplitNoSep(a: string, sep: char)
    requires sep !in a
    ensures Split(a, sep) == [a]
    decreases |a|
  {
    if |a| > 0 {
      SplitNoSep(a[1..], sep);
      assert [a[0]] + a[1..] == a;
    }
  }

  lemma {:induction false} SplitAfter(a: string, b: string, sep: char)
    requires sep !in a
    ensures Split(a + [sep] + b, sep) == [a] + Split(b, sep)
    decreases |a|
  {
    var s := a + [sep] + b;
    if |a| == 0 {
      assert s[1..] == b;
    } else {
      assert s[1..] == a[1..] + [sep] + b;
      SplitAfter(a[1..], b, sep);
      assert [a[0]] + a[1..] == a;
    }
  }

  /** Splitting undoes joining parts that hold no separator. */
  lemma {:induction false} SplitJoin(parts: seq<string>, sep: char)
    requires |parts| >= 1
    requires forall i :: 0 <= i < |parts| ==> sep !in parts[i]
    ensures Split(Join(parts, sep), sep) == parts
    decreases |parts|
  {
    if |parts| == 1 {
      SplitNoSep(parts[0], sep);
    } else {
      SplitJoin(parts[1..], sep);
      SplitAfter(parts[0], Join(parts[1..], sep), sep);
      assert [parts[0]] + parts[1..] == parts;
    }
  }

  /** The prefix of the page path of a matrix. */
  const MatrixPath: string := "/matrix/"

  /** The path the client moves to after creating matrix `id`: the prefix
      followed by the id, each of which reads back from the path. */
  function PathFor(id: string): (p: string)
    ensures |p| == |MatrixPath| + |id|
    ensures p[..|MatrixPath|] == MatrixPath && p[|MatrixPath|..] == id
  {
    MatrixPath + id
  }

  /** The matrix id the page path names: the path must split on '/' into
      exactly three parts whose middle one is "matrix", and only a non-empty
      third part counts as an id. */
  function IdFromPath(path: string): (r: Option<string>)
    ensures r.Some? ==> r.value != "" && '/' !in r.value
  {
    var parts := Split(path, '/');
    if |parts| == 3 && parts[1] == "matrix" && parts[2] != "" then Some(parts[2]) else None
  }

  /** `path` is some separator-free segment followed by "/matrix/" and `id`. */
  ghost predicate IsMatrixPath(path: string, id: string) {
    && id != "" && '/' !in id
    && exists a :: '/' !in a && path == a + PathFor(id)
  }

  /** An id read from a path comes from a matrix path. */
  lemma IdFromPathSound(path: string)
    requires IdFromPath(path).Some?
    ensures IsMatrixPath(path, IdFromPath(path).value)
  {
    var parts := Split(path, '/');
    var id := parts[2];
    var tail := parts[1..];
    assert Join(tail[1..], '/') == id;
    assert Join(tail, '/') == "matrix" + ['/'] + id;
    assert path == parts[0] + ['/'] + Join(tail, '/');
    assert path == parts[0] + PathFor(id);
  }

  /** Every matrix path yields its id. */
  lemma IdFromPathComplete(path: string, id: string)
    requires IsMatrixPath(path, id)
    ensures IdFromPath(path) == Some(id)
  {
    var a :| '/' !in a && path == a + PathFor(id);
    var rest := "matrix" + ['/'] + id;
    assert path == a + ['/'] + rest;
    SplitAfter(a, rest, '/');
    SplitAfter("matrix", id, '/');
    SplitNoSep(id, '/');
    assert Split(path, '/') == [a, "matrix", id];
  }

  /** Path parsing recognises exactly the matrix paths. */
  lemma IdFromPathExact(path: string, id: string)
    ensures IdFromPath(path) == Some(id) <==> IsMatrixPath(path, id)
  {
    if IdFromPath(path) == Some(id) {
      IdFromPathSound(path);
    }
    if IsMatrixPath(path, id) {
      IdFromPathComplete(path, id);
    }
  }

  /** The path written after creating a matrix reads back as that matrix. */
  lemma PathRoundTrip(id: string)
    requires id != "" && '/' !in id
    ensures IdFromPath(PathFor(id)) == Some(id)
  {
    assert "" + PathFor(id) == PathFor(id);
    IdFromPathExact(PathFor(id), id);
  }

  // ---------------------------------------------------------------------------
  // Checks before a create request

  /** The characters a string trim removes: the ECMAScript white space and
      line terminator characters. */
  predicate IsSpace(c: char) {
    || c == ' ' || c == '\t' || c == '\n' || c == '\r'
    || c == '\U{B}' || c == '\U{C}' || c == '\U{A0}' || c == '\U{1680}'
    || ('\U{2000}' <= c <= '\U{200A}')
    || c == '\U{2028}' || c == '\U{2029}' || c == '\U{202F}' || c == '\U{205F}'
    || c == '\U{3000}' || c == '\U{FEFF}'
  }

  /** The number of white space characters at the start of `s`. */
  function LeadingSpaces(s: string): (n: nat)
    ensures n <= |s|
    ensures forall i :: 0 <= i < n ==> IsSpace(s[i])
    ensures n < |s| ==> !IsSpace(s[n])
    decreases |s|
  {
    if |s| > 0 && IsSpace(s[0]) then 1 + LeadingSpaces(s[1..]) else 0
  }

  /** The number of white space characters at the end of `s`. */
  function TrailingSpaces(s: string): (n: nat)
    ensures n <= |s|
    ensures forall i :: |s| - n <= i < |s| ==> IsSpace(s[i])
    ensures n < |s| ==> !IsSpace(s[|s| - n - 1])
    decreases |s|
  {
    if |s| > 0 && IsSpace(s[|s| - 1]) then 1 + TrailingSpaces(s[..|s| - 1]) else 0
  }

  /** `s` without its leading and trailing white space: a slice of `s` with
      only white space before and after it, and no white space at either of
      its own ends. A blank string, where the two runs of white space overlap,
      trims to nothing. */
  function Trim(s: string): (r: string)
    ensures |r| <= |s|
    ensures r == "" || (!IsSpace(r[0]) && !IsSpace(r[|r| - 1]))
    ensures exists i, j ::
      && 0 <= i <= j <= |s| && r == s[i..j]
      && (forall k :: 0 <= k < i ==> IsSpace(s[k]))
      && (forall k :: j <= k < |s| ==> IsSpace(s[k]))
  {
    var i := LeadingSpaces(s);
    var j := |s| - TrailingSpaces(s);
    if i <= j then s[i..j]
    else
      assert s[i..i] == "";
      ""
  }

  /** A string is blank, trimming to nothing, exactly when every character of
      it is white space. */
  lemma TrimBlank(s: string)
    ensures Trim(s) == "" <==> forall i :: 0 <= i < |s| ==> IsSpace(s[i])
  {
    var i := LeadingSpaces(s);
    var j := |s| - TrailingSpaces(s);
    if Trim(s) == "" {
      assert i >= j;
    }
  }

  /** Trimming twice is trimming once. */
  lemma TrimIdempotent(s: string)
    ensures Trim(Trim(s)) == Trim(s)
  {
    var r := Trim(s);
    if r != "" {
      assert LeadingSpaces(r) == 0;
      assert TrailingSpaces(r) == 0;
    }
  }

  /** Lower-casing of one character; only the ASCII capitals are mapped,
      each to the small letter 32 code points above it. */
  function LowerChar(c: char): (d: char)
    ensures !('A' <= d <= 'Z')
    ensures 'A' <= c <= 'Z' ==> 'a' <= d <= 'z' && d as int == c as int + 32
    ensures !('A' <= c <= 'Z') ==> d == c
  {
    if 'A' <= c <= 'Z' then (c as int - 'A' as int + 'a' as int) as char else c
  }

  function Lower(s: string): (r: string)
    ensures |r| == |s|
    ensures forall i :: 0 <= i < |s| ==> r[i] == LowerChar(s[i])
  {
    seq(|s|, i requires 0 <= i < |s| => LowerChar(s[i]))
  }

  /** Two characters that are the same letter up to ASCII case. */
  predicate SameIgnoringCase(c: char, d: char) {
    || c == d
    || ('A' <= c <= 'Z' && d as int == c as int + 32)
    || ('A' <= d <= 'Z' && c as int == d as int + 32)
  }

  /** The duplicate check compares lower-cased names: they are equal exactly
      when the names have the same length and agree letter by letter up to
      ASCII case. */
  lemma LowerEqualIgnoringCase(a: string, b: string)
    ensures Lower(a) == Lower(b) <==>
      |a| == |b| && forall i :: 0 <= i < |a| ==> SameIgnoringCase(a[i], b[i])
  {
    if |a| == |b| && forall i :: 0 <= i < |a| ==> SameIgnoringCase(a[i], b[i]) {
      forall i | 0 <= i < |a| ensures Lower(a)[i] == Lower(b)[i] {
        assert SameIgnoringCase(a[i], b[i]);
      }
    }
    if Lower(a) == Lower(b) {
      forall i | 0 <= i < |a| ensures SameIgnoringCase(a[i], b[i]) {
        assert Lower(a)[i] == Lower(b)[i];
      }
    }
  }

  lemma LowerIdempotent(s: string)
    ensures Lower(Lower(s)) == Lower(s)
  {
  }

  /** The label the client asks the server to create from the text typed
      into the label box, given the labels on screen: nothing when the text is
      blank or names an existing label up to case, else the trimmed text with
      no color. */
  function LabelToCreate(input: string, existing: seq<Label>): (r: Option<LabelCreate>)
    ensures r.None? <==>
      Trim(input) == "" || exists l :: l in existing && Lower(l.name) == Lower(Trim(input))
    ensures r.Some? ==> r.value.name == Trim(input) && r.value.color == None
  {
    var name := Trim(input);
    if name == "" then None
    else if exists i :: 0 <= i < |existing| && Lower(existing[i].name) == Lower(name) then None
    else Some(LabelCreate(name, None))
  }

  /** When the client shows the matrix's labels as the server lists them, a
      name it lets through never meets the server's duplicate-name rule, so
      the create request does not end in Conflict. */
  lemma ClientCheckedNameIsFree(db: Db, m: string, existing: seq<Label>, input: string)
    requires RouteSpec.IsLabelList(db, m, existing)
    requires LabelToCreate(input, existing).Some?
    ensures !NameTaken(db, m, LabelToCreate(input, existing).value.name, None)
  {
    var name := LabelToCreate(input, existing).value.name;
    forall id | id in db.labels && db.labels[id].matrixId == m
      ensures db.labels[id].name != name
    {
      assert db.labels[id] in LabelsOfMatrix(db, m);
      assert db.labels[id] in existing;
    }
  }

  /** The client check is stricter than the server's: with a label "Work" on
      screen, typing "work" sends nothing, although the server, which compares
      names exactly, would accept it. */
  lemma ClientStricterThanServer()
    ensures var db := EmptyDb().(
              matrices := map["m" := Matrix("m", 0, 0)],
              labels := map[1 := Label(1, "m", "Work", None, 0, 0)]);
      && LabelToCreate("work", [db.labels[1]]).None?
      && !NameTaken(db, "m", "work", None)
  {
    var db := EmptyDb().(
      matrices := map["m" := Matrix("m", 0, 0)],
      labels := map[1 := Label(1, "m", "Work", None, 0, 0)]);
    assert Trim("work") == "work" by {
      assert LeadingSpaces("work") == 0;
      assert TrailingSpaces("work") == 0;
    }
    assert Lower("Work") == Lower("work");
    assert "Work" != "work";
  }

  /** The task the client asks the server to create: nothing when the typed
      title is blank; otherwise the title as typed, an empty description, the
      chosen quadrant's key and the selected label ids. */
  function TaskToCreate(text: string, q: Quadrant, selected: seq<int>): (r: Option<TaskCreate>)
    ensures r.None? <==> forall i :: 0 <= i < |text| ==> IsSpace(text[i])
    ensures r.Some? ==> r.value == TaskCreate(text, Some(""), Key(q), Some(selected))
  {
    TrimBlank(text);
    if Trim(text) == "" then None
    else Some(TaskCreate(text, Some(""), KeyFor(DisplayName(q)).value, Some(selected)))
  }

  /** A task the client creates is stored with its quadrant's key, and the
      next task list of the matrix shows it under that quadrant. */
  lemma CreatedTaskShowsInQuadrant(db: Db, m: string, text: string, q: Quadrant, selected: seq<int>, now: nat, vs: seq<TaskInDB>)
    requires Valid(db) && db.clock <= now
    requires TaskToCreate(text, q, selected).Some?
    requires RouteSpec.CreateTask(db, m, TaskToCreate(text, q, selected).value, now).1.Ok?
    requires RouteSpec.IsTaskList(RouteSpec.CreateTask(db, m, TaskToCreate(text, q, selected).value, now).0, m, vs)
    ensures var t := RouteSpec.CreateTask(db, m, TaskToCreate(text, q, selected).value, now).1.value;
      && t.quadrant == Key(q)
      && exists i :: 0 <= i < |vs| && vs[i].id == t.id && vs[i] in TasksForQuadrant(vs, DisplayName(q))
  {
    var p := TaskToCreate(text, q, selected).value;
    assert p.quadrant == Key(q);
    RouteSpec.CreateTaskResult(db, m, p, now);
    var (d, r) := RouteSpec.CreateTask(db, m, p, now);
    var t := r.value;
    assert t.id in d.tasks && d.tasks[t.id] == t && t.matrixId == m;
    assert t.id in TaskIdsOfMatrix(d, m);
    ShownInQuadrant(d, m, vs, t.id, q);
  }

  /** A task of the matrix whose stored key is `q`'s shows under `q` in every
      task list of the matrix. */
  lemma ShownInQuadrant(d: Db, m: string, vs: seq<TaskInDB>, id: int, q: Quadrant)
    requires RouteSpec.IsTaskList(d, m, vs)
    requires id in TaskIdsOfMatrix(d, m) && d.tasks[id].quadrant == Key(q)
    ensures exists i :: 0 <= i < |vs| && vs[i].id == id && vs[i] in TasksForQuadrant(vs, DisplayName(q))
  {
    assert id in RouteSpec.ViewIds(vs);
    var i :| 0 <= i < |vs| && vs[i].id == id;
    assert RouteSpec.IsTaskView(d, vs[i]);
    assert vs[i].quadrant == Key(q);
    assert vs[i] in vs;
  }

  /** The update the client sends when a task is moved to the quadrant headed
      `name`: only the quadrant, and not even that when `name` has no key. */
  function MoveUpdate(name: string): (u: TaskUpdate)
    ensures UpdateFitsColumns(u)
    ensures u.title.Unset? && u.description.Unset? && u.labelIds.Unset?
    ensures KeyFor(name).Some? <==> u.quadrant.SetTo?
    ensures u.quadrant.SetTo? ==> Some(u.quadrant.value) == KeyFor(name)
  {
    TaskUpdate(Unset, Unset, if KeyFor(name).Some? then SetTo(KeyFor(name).value) else Unset, Unset)
  }

  /** A moved task keeps its title, description and labels, is stored with
      its new quadrant's key, and the next task list of the matrix shows it
      under that quadrant. */
  lemma MovedTaskShowsInQuadrant(db: Db, m: string, id: int, q: Quadrant, now: nat, vs: seq<TaskInDB>)
    requires Valid(db) && db.clock <= now
    requires RouteSpec.UpdateTask(db, m, id, MoveUpdate(DisplayName(q)), now).1.Ok?
    requires RouteSpec.IsTaskList(RouteSpec.UpdateTask(db, m, id, MoveUpdate(DisplayName(q)), now).0, m, vs)
    ensures var (d, r) := RouteSpec.UpdateTask(db, m, id, MoveUpdate(DisplayName(q)), now);
      && r.value.title == db.tasks[id].title && r.value.description == db.tasks[id].description
      && r.value.quadrant == Key(q)
      && LabelIdsOfTask(d, id) == LabelIdsOfTask(db, id)
      && exists i :: 0 <= i < |vs| && vs[i].id == id && vs[i] in TasksForQuadrant(vs, DisplayName(q))
  {
    var u := MoveUpdate(DisplayName(q));
    RouteSpec.UpdateTaskResult(db, m, id, u, now);
    var (d, r) := RouteSpec.UpdateTask(db, m, id, u, now);
    assert r.value == ApplyTaskUpdate(db.tasks[id], u, now) && r.value.quadrant == Key(q);
    assert id in d.tasks && d.tasks[id] == r.value && r.value.matrixId == m;
    assert id in TaskIdsOfMatrix(d, m);
    ShownInQuadrant(d, m, vs, id, q);
  }
}
