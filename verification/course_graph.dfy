/**
 * The in-memory course graph of `datastructures/graph_branch.py`: a map from a
 * course name to the ordered list of its prerequisites, kept closed (every
 * listed prerequisite is itself a key) by `add_course` and by loading.
 */
module CourseGraph {
  import opened Wrappers
  import PrereqCodec

  type Graph = map<string, seq<string>>

  /**
   * Python's `graph.get(course, [])`: a course that is not a key has no
   * prerequisites, and in a closed graph every prerequisite found is a key.
   */
  function Prereqs(g: Graph, course: string): (r: seq<string>)
    ensures course !in g ==> r == []
    ensures Closed(g) ==> forall p :: p in r ==> p in g
  {
    if course in g then g[course] else []
  }

  /** Every listed prerequisite is a key of the map. */
  ghost predicate Closed(g: Graph) {
    forall c, p :: c in g && p in g[c] ==> p in g
  }

  /** The names a list mentions, as a set. */
  function Mentioned(names: seq<string>): set<string> {
    set i | 0 <= i < |names| :: names[i]
  }

  /**
   * The loop `for prereq in names: if prereq not in graph: graph[prereq] = []`:
   * every missing name becomes a key with no prerequisites, nothing else changes.
   */
  function AddMissing(g: Graph, names: seq<string>): (r: Graph)
    ensures r.Keys == g.Keys + Mentioned(names)
    ensures forall k :: k in g ==> r[k] == g[k]
    ensures forall k :: k in r && k !in g ==> r[k] == []
    decreases |names|
  {
    if names == [] then g
    else
      var g' := if names[0] in g then g else g[names[0] := []];
      var r := AddMissing(g', names[1..]);
      assert Mentioned(names) == {names[0]} + Mentioned(names[1..]);
      r
  }

  /**
   * `add_course(course, prereqs)` on the in-memory map: the course's list is
   * replaced by exactly `prereqs`, missing prerequisites become empty keys, and
   * every other existing key keeps its list. Closure is preserved.
   */
  function AddCourse(g: Graph, course: string, prereqs: seq<string>): (r: Graph)
    ensures course in r && r[course] == prereqs
    ensures r.Keys == g.Keys + {course} + Mentioned(prereqs)
    ensures forall k :: k in g && k != course ==> r[k] == g[k]
    ensures forall k :: k in r && k !in g && k != course ==> r[k] == []
    ensures Closed(g) ==> Closed(r)
  {
    var r := AddMissing(g[course := prereqs], prereqs);
    assert Closed(g) ==> Closed(r) by {
      if Closed(g) {
        forall c, p | c in r && p in r[c] ensures p in r {
          if c == course {
            assert p in Mentioned(prereqs);
          }
        }
      }
    }
    r
  }

  /** One row of the `courses` table: a course name and its stored prerequisites (possibly NULL). */
  datatype Row = Row(course: string, prereqs: Option<string>)

  /** The course names a sequence of rows defines. */
  function RowCourses(rows: seq<Row>): set<string> {
    set i | 0 <= i < |rows| :: rows[i].course
  }

  /** The prerequisite names the rows' decoded cells mention. */
  function RowPrereqs(rows: seq<Row>): set<string> {
    set i, p | 0 <= i < |rows| && p in Mentioned(PrereqCodec.Decode(rows[i].prereqs)) :: p
  }

  /** Splitting off the first row splits both name sets. */
  lemma RowNamesCons(rows: seq<Row>)
    requires rows != []
    ensures RowCourses(rows) == {rows[0].course} + RowCourses(rows[1..])
    ensures RowPrereqs(rows) == Mentioned(PrereqCodec.Decode(rows[0].prereqs)) + RowPrereqs(rows[1..])
  {
    forall p | p in RowPrereqs(rows)
      ensures p in Mentioned(PrereqCodec.Decode(rows[0].prereqs)) + RowPrereqs(rows[1..])
    {
      var i :| 0 <= i < |rows| && p in Mentioned(PrereqCodec.Decode(rows[i].prereqs));
      if i > 0 {
        assert rows[i] == rows[1..][i - 1];
      }
    }
    forall p | p in RowPrereqs(rows[1..]) ensures p in RowPrereqs(rows) {
      var i :| 0 <= i < |rows[1..]| && p in Mentioned(PrereqCodec.Decode(rows[1..][i].prereqs));
      assert rows[1..][i] == rows[i + 1];
    }
    forall p | p in Mentioned(PrereqCodec.Decode(rows[0].prereqs)) ensures p in RowPrereqs(rows) {
    }
  }

  /**
   * The body of `_load_courses_from_db`: each row, in order, sets its course's
   * list to the decoded cell and adds the missing prerequisites, exactly as
   * `add_course` does in memory. The keys become the old keys plus every row's
   * course and every decoded prerequisite; a key no row defines keeps its old
   * list, or gets `[]` if it is new; closure is preserved.
   */
  function LoadRows(g: Graph, rows: seq<Row>): (r: Graph)
    ensures r.Keys == g.Keys + RowCourses(rows) + RowPrereqs(rows)
    ensures forall k :: k in g && k !in RowCourses(rows) ==> r[k] == g[k]
    ensures forall k :: k in r && k !in g && k !in RowCourses(rows) ==> r[k] == []
    ensures Closed(g) ==> Closed(r)
    decreases |rows|
  {
    if rows == [] then g
    else
      var g' := AddCourse(g, rows[0].course, PrereqCodec.Decode(rows[0].prereqs));
      var r := LoadRows(g', rows[1..]);
      RowNamesCons(rows);
      r
  }

  /**
   * The graph built by the constructor from the rows of the table: closed, its
   * keys exactly the row courses and their decoded prerequisites, and every
   * key that is only a prerequisite mapped to `[]`.
   */
  function Load(rows: seq<Row>): (g: Graph)
    ensures Closed(g)
    ensures g.Keys == RowCourses(rows) + RowPrereqs(rows)
    ensures forall k :: k in g && k !in RowCourses(rows) ==> g[k] == []
  {
    LoadRows(map[], rows)
  }

  /** No two rows share a course name (the column is the table's primary key). */
  predicate UniqueCourses(rows: seq<Row>) {
    forall i, j :: 0 <= i < j < |rows| ==> rows[i].course != rows[j].course
  }

  /** With distinct row courses, loading maps every row's course to its decoded list. */
  lemma {:induction false} LoadRowsKeeps(g: Graph, rows: seq<Row>)
    requires UniqueCourses(rows)
    ensures forall i :: 0 <= i < |rows| ==>
      LoadRows(g, rows)[rows[i].course] == PrereqCodec.Decode(rows[i].prereqs)
    decreases |rows|
  {
    if rows != [] {
      var g' := AddCourse(g, rows[0].course, PrereqCodec.Decode(rows[0].prereqs));
      var r := LoadRows(g', rows[1..]);
      assert r == LoadRows(g, rows);
      LoadRowsKeeps(g', rows[1..]);
      RowNamesCons(rows);
      forall i | 0 <= i < |rows| ensures r[rows[i].course] == PrereqCodec.Decode(rows[i].prereqs) {
        if i == 0 {
          assert rows[0].course !in RowCourses(rows[1..]);
        } else {
          assert rows[i] == rows[1..][i - 1];
        }
      }
    }
  }

  /** Loading rows with distinct course names maps each row's course to its decoded list. */
  lemma LoadMapsRows(rows: seq<Row>)
    requires UniqueCourses(rows)
    ensures forall i :: 0 <= i < |rows| ==>
      rows[i].course in Load(rows) && Load(rows)[rows[i].course] == PrereqCodec.Decode(rows[i].prereqs)
  {
    LoadRowsKeeps(map[], rows);
  }

  /**
   * Storing then loading: a table written by `add_course` for distinct courses
   * with comma-free names gives back every stored list.
   */
  lemma LoadStoredLists(courses: seq<string>, lists: seq<seq<string>>)
    requires |courses| == |lists|
    requires forall i, j :: 0 <= i < j < |courses| ==> courses[i] != courses[j]
    requires forall i :: 0 <= i < |lists| ==> PrereqCodec.AllPlain(lists[i]) && lists[i] != [""]
    ensures var rows := seq(|courses|, i requires 0 <= i < |courses| => Row(courses[i], Some(PrereqCodec.Encode(lists[i]))));
      forall i :: 0 <= i < |courses| ==> courses[i] in Load(rows) && Load(rows)[courses[i]] == lists[i]
  {
    var rows := seq(|courses|, i requires 0 <= i < |courses| => Row(courses[i], Some(PrereqCodec.Encode(lists[i]))));
    LoadMapsRows(rows);
    forall i | 0 <= i < |courses|
      ensures courses[i] in Load(rows) && Load(rows)[courses[i]] == lists[i]
    {
      assert rows[i].course == courses[i];
    }
  }
}
