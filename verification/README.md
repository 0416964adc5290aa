# Course graph and student ranking — a Dafny model

This project models the three pure in-memory cores of a small student-records
application written in Python:

- **`CourseGraph`** (`datastructures/graph_branch.py`): a map from a course name
  to its ordered list of prerequisite names. `add_course` replaces a course's list
  and adds every unknown prerequisite as a course with no prerequisites. The
  constructor loads the same map from `(course, prerequisites)` rows, where the
  list is stored as one comma-joined string. `get_course_path` runs a depth-first
  search from a target course and returns the reversed post-order.
- **`StudentHeap`, `datastructures/student_heap.py`**: `insert_by_gpa` pushes
  `(-gpa, student)` entries. `get_top_students(n)` sorts a copy ascending and keeps
  the first `n`, so the highest GPA comes first.
- **`StudentHeap`, top-level `student_heap.py`**: the module the tests and the GUI
  import. It is the same class except that it sorts with `reverse=True`, so the
  lowest GPA comes first.

Modules follow the program's structure:

| module | file | models |
|---|---|---|
| `Wrappers` | wrappers.dfy | `Option` (NULL cells) and `Result` (Python exceptions) |
| `Seqs` | seqs.dfy | shared sequence vocabulary: `NoDup`, `Min`, `Reverse` (`s[::-1]`) |
| `Students` | students.dfy | the `Student` record of `student.py` |
| `PrereqCodec` | prereq_codec.dfy | `','.join` / `split(',')` for the prerequisite column |
| `CourseGraph` | course_graph.dfy | the graph map, `add_course`, the row fold of `_load_courses_from_db` |
| `PathSearch` | path_search.dfy | `get_course_path` and its inner `dfs`, reachability, ordering |
| `Ranking` | ranking.dfy | the `(-gpa, student)` entries, `insert_by_gpa`, both `sorted` calls |
| `PackageHeap` | package_heap.dfy | `get_top_students` of `datastructures/student_heap.py` |
| `RootHeap` | root_heap.dfy | `get_top_students` of `student_heap.py` |
| `HeapScenarios` | heap_scenarios.dfy | the six students of `test_student_heap.py` |

Modelling decisions:

- **GPA** is an integer number of hundredths (3.85 is 385). The source only
  negates and compares it.
- **The heap** is the Python list that `heapq` maintains. `Ranking.Push` models
  `heappush`: it appends the entry, then swaps it with its parent while its key
  is smaller. Queries cannot observe the heap's shape, because every query
  re-sorts the whole list. `PackageHeap.ShapeIrrelevant` and
  `RootHeap.ShapeIrrelevant` prove that query answers depend only on the
  multiset of entries. An insert can observe the shape: when the new GPA ties an
  entry on its sift-up path, Python compares the two students and raises
  `TypeError`. `HeapScenarios.InsertSeesShape` shows two valid heaps with the
  same entries where the same insert raises on one and not on the other.
- **`insert_by_gpa`** is identical in both heap files (`student_heap.py:8-9`
  and `datastructures/student_heap.py:8-10`). It is modelled once, as
  `Ranking.Push`. Its result holds the list and an optional error. The C
  `heappush` appends before sifting and swaps in place, so the list holds the
  new entry even when the insert raises.
- **`WellKeyed`**: both queries require that every entry's key is its own
  student's negated GPA. This is the representation invariant that `Push`
  establishes and preserves.
- **Equal GPAs**: `Student` defines no ordering. When two entries have equal
  keys, Python's tuple comparison falls through to comparing the two students
  and raises `TypeError`. A query returns `Failure(IncomparableStudents)`
  exactly when two entries share a key, whatever `n` is, because the whole list
  is sorted before slicing. An insert raises only if the tie lies on its sift-up
  path.
- **Queries do not mutate**: a query is a function of the stored entries and
  returns no new heap. So `sorted` copying the list, and repeated calls giving
  the same answer, hold by construction.
- **`graph.get(course, [])`** is `CourseGraph.Prereqs`. Because `dfs` marks a
  course visited before it descends, a back edge to a course still on the call
  stack is skipped. The search therefore ends on cyclic graphs. Termination is
  proved with the measure "keys of the graph not yet visited".

Three behaviours of the code are easy to misread:

- `get_course_path` returns the **target first**, followed by its
  prerequisites (the reversed post-order of `dfs`).
- A GPA tie raises `TypeError`; it is never broken by insertion order.
- `dfs` has no recursion guard beyond `visited`. A course is marked visited on
  entry, so a back edge to a course still on the call stack is skipped and the
  search ends on cyclic graphs.

## Model

| member | source | states |
|---|---|---|
| `PrereqCodec.Join` | datastructures/graph_branch.py:29 | `','.join` of a non-empty list of comma-free names holds exactly one comma fewer than there are names |
| `PrereqCodec.Split` | datastructures/graph_branch.py:21 | `split(',')` yields one piece more than the text has commas, no piece holds a comma, and joining the pieces with commas gives the input back |
| `PrereqCodec.Decode` | datastructures/graph_branch.py:21 | a NULL or empty cell decodes to no prerequisites (and only those do); otherwise the comma-free names re-join to the stored text |
| `PrereqCodec.JoinInjective` | datastructures/graph_branch.py:29 | `','.join` is injective on non-empty lists of comma-free names |
| `PrereqCodec.Encode` | datastructures/graph_branch.py:21-29 | reading back the text `add_course` stores gives the same list, provided no name holds a comma and the list is not `[""]` |
| `PrereqCodec.EncodeLossy` | datastructures/graph_branch.py:21-29 | the two lossy inputs: `[""]` reads back as `[]`, and a name containing a comma reads back as two names |
| `CourseGraph.Prereqs` | datastructures/graph_branch.py:54 | `graph.get(course, [])` gives `[]` for a course that is not a key; in a closed graph every prerequisite it gives is a key |
| `CourseGraph.AddMissing` | datastructures/graph_branch.py:42-44 | the keys become the old keys plus the listed names; old keys keep their lists; new keys get `[]` |
| `CourseGraph.AddCourse` | datastructures/graph_branch.py:40-44 | the course maps to exactly the given list (replaced, not merged); keys grow by the course and its prerequisites; other old keys are unchanged; new prerequisites get `[]`; closure is preserved |
| `CourseGraph.LoadRows` | datastructures/graph_branch.py:20-25 | folding rows into a graph: the keys become the old keys plus every row's course and every decoded prerequisite; a key no row defines keeps its old list, or gets `[]` if it is new; closure is preserved |
| `CourseGraph.Load` | datastructures/graph_branch.py:17-25 | the loaded graph is closed, its keys are exactly the row courses and their decoded prerequisites, and a key that is only a prerequisite maps to `[]` |
| `CourseGraph.LoadRowsKeeps` | datastructures/graph_branch.py:20-25 | with distinct row courses, each row's course maps to its decoded cell |
| `CourseGraph.LoadMapsRows` | datastructures/graph_branch.py:17-25 | loading rows with distinct course names (the primary key) maps each course to its decoded prerequisite list |
| `CourseGraph.LoadStoredLists` | datastructures/graph_branch.py:20-36 | a table written by `add_course` for distinct courses with comma-free names loads back to every stored list |
| `PathSearch.Visit` | datastructures/graph_branch.py:50-56 | `dfs(course)` terminates, only adds to `visited`, leaves the course visited, and only appends to `path` |
| `PathSearch.VisitAll` | datastructures/graph_branch.py:54-55 | the prerequisite loop terminates, only adds to the state, and leaves every listed prerequisite visited |
| `PathSearch.CoursePath` | datastructures/graph_branch.py:58-61 | the result is empty exactly when the target is not a key; otherwise its first element is the target |
| `PathSearch.VisitExtends` | datastructures/graph_branch.py:50-56 | one `dfs` call appends exactly the newly visited courses, without duplicates, all reachable from the root, each with its prerequisites visited and placed after them unless one leads back to it |
| `PathSearch.VisitAllExtends` | datastructures/graph_branch.py:54-55 | the same guarantees for the loop over a prerequisite list |
| `PathSearch.CoursePathDistinct` | datastructures/graph_branch.py:47-61 | the recommended path lists no course twice |
| `PathSearch.CoursePathReachable` | datastructures/graph_branch.py:47-61 | a course is in the path if and only if it is the target or a transitive prerequisite of it |
| `PathSearch.CoursePathOrder` | datastructures/graph_branch.py:50-61 | every listed course comes before each of its prerequisites, except a prerequisite that leads back to it (a skipped cycle edge) |
| `PathSearch.CoursePathTopological` | datastructures/graph_branch.py:56-61 | on an acyclic graph every listed course comes before all of its prerequisites |
| `PathSearch.GraphTestScenario` | graph_test.py:6-14 | the two `add_course` calls, then a query for Algorithms, give `[Algorithms, Data Structures, Intro to Programming]` |
| `PathSearch.CycleScenario` | datastructures/graph_branch.py:51-53 | on `{A: [B], B: [A]}` the search ends and returns `[A, B]` |
| `Ranking.SiftUp` | datastructures/student_heap.py:10 | `heappush`'s sift-up permutes the list and keeps keying and the heap invariant; it raises only on a tie between the rising entry and another entry |
| `Ranking.Push` | datastructures/student_heap.py:8-10 | `insert_by_gpa` leaves exactly one more entry `(-gpa, student)` in the list, whether or not it raises; it raises only if the new GPA ties an entry already there; keying and the heap invariant are kept |
| `Ranking.SortAscending` | datastructures/student_heap.py:14 | `sorted(heap)` is a permutation of the entries in non-decreasing key order |
| `Ranking.SortDescending` | student_heap.py:12 | `sorted(heap, reverse=True)` is a permutation of the entries in non-increasing key order |
| `Ranking.SortAscendingPermutation` | datastructures/student_heap.py:14 | with distinct keys, the ascending sort depends only on the multiset of entries |
| `Ranking.FirstStudents` | datastructures/student_heap.py:15-16 | `[:n]` followed by the projection keeps `min(n, count)` entries, the whole list when `n` exceeds it, and gives each entry's student in order |
| `Ranking.SortDescendingIsReverse` | student_heap.py:12 | with distinct keys, the `reverse=True` sort is the exact reverse of the plain sort |
| `PackageHeap.TopStudents` | datastructures/student_heap.py:12-16 | fails exactly on a GPA tie; otherwise returns `min(n, count)` inserted students in strictly descending GPA, and every inserted student left out has a lower GPA than every one returned |
| `PackageHeap.ShapeIrrelevant` | datastructures/student_heap.py:8-16 | two heaps holding the same multiset of entries answer every query identically |
| `RootHeap.TopStudents` | student_heap.py:11-12 | fails exactly on a GPA tie; otherwise returns `min(n, count)` inserted students in strictly ascending GPA, and every inserted student left out has a higher GPA than every one returned |
| `RootHeap.ShapeIrrelevant` | student_heap.py:8-12 | two heaps holding the same multiset of entries answer every query identically |
| `RootHeap.FullListReversed` | student_heap.py:12 | asked for every student, this variant returns the exact reverse of the `datastructures` variant's answer |
| `HeapScenarios.PushAll` | test_student_heap.py:18-19 | the insert loop: if no insert raises, the list gains exactly one entry per student; otherwise it stops at a student whose GPA ties an entry already there, holding the entries up to and including that student's and none of the later ones; keying and the heap invariant survive |
| `HeapScenarios.PushAllStops` | test_student_heap.py:18-19 | an error is the error of the first raising push: for some `k`, pushing students `0..k-1` raises nothing and the loop's result is exactly push `k` applied to the list they built |
| `HeapScenarios.SetUpPushes` | test_student_heap.py:5-19 | every insert of the test's `setUp` succeeds, and the list ends up as Eve, John, Alice, Allan, Bob, Mike |
| `HeapScenarios.InsertSeesShape` | datastructures/student_heap.py:10 | two valid heaps holding the same entries: inserting a student who ties John raises on one and succeeds on the other |
| `HeapScenarios.PackageHeapPassesTests` | test_student_heap.py:21-32 | on the six test students the `datastructures` variant returns Eve, John, Allan for `n = 3`, and five students headed by Eve by default |
| `HeapScenarios.RootHeapFailsTests` | test_student_heap.py:21-32 | on the six test students the top-level variant returns Mike, Bob, Alice for `n = 3`, and five students headed by Mike by default, so both test assertions fail |

## Findings

| source | as written | input that shows it | evidently intended | confidence | as-written member | corrected member |
|---|---|---|---|---|---|---|
| student_heap.py:12 | `sorted(self.heap, reverse=True)` over `(-gpa, student)` entries puts the lowest GPA first | the six students of test_student_heap.py:6-19 with `n = 3`: the answer is Mike, Bob, Alice | highest GPA first: test_student_heap.py:24 expects Eve, John, Allan, test_student_heap.py:32 expects Eve first, and gui.py:145 labels the list "Top 5 Students by GPA" | high (not executed) | `RootHeap.TopStudents`, exhibited by `HeapScenarios.RootHeapFailsTests` and `RootHeap.FullListReversed` | `PackageHeap.TopStudents` (the plain ascending sort of `datastructures/student_heap.py:14`), with `HeapScenarios.PackageHeapPassesTests` |

## Left out

- SQLite I/O (`_connect`, `CREATE TABLE`, `SELECT`, `INSERT OR REPLACE`, commit, close): only the pure row fold, the codec and the map updates are modelled. The rows `SELECT` returns are a parameter of `CourseGraph.Load`, in whatever order the database yields them.
- `display_graph`: printing only.
- `heapq.heappop` and the other `heapq` functions: the source never calls them. Only `heappush` is modelled.
- Ranking.Push: models every key tie on the sift-up path as the `TypeError`. Pushing the very same `Student` object twice does not raise, because Python's tuple comparison finds the two items identical. Object identity is not modelled.
- A NULL `course_name`: SQLite accepts NULL, even several times, in a `TEXT PRIMARY KEY` column, and such a row would map `None` in the graph. A `Row`'s course is always a string, and the program never writes such a row.
- CourseGraph.AddCourse: `graph[course_name] = prerequisites` stores the caller's list object itself. If the caller later changes that list in place, the graph changes with it and can lose closure. The model treats lists as values.
- Floating-point GPAs and `Student.__repr__` formatting: GPA is an integer in hundredths.
- Negative `n`: Python's slice semantics for negative bounds are not modelled. `n` is a `nat`.
- Python's recursion limit: a `RecursionError` on very deep prerequisite chains is not modelled. The model's search always finishes.
- Demo code: the `__main__` block of `student_heap.py` and the printing in `graph_test.py`. Their data appears only in the scenario lemmas.
- `gui.py`: user-interface orchestration. The record collection, undo stack, student database and the `model.student` record it calls are not part of this model, so search, delete and undo are not modelled. Delete and undo never touch the heap (gui.py:106-140).
- PackageHeap.TopStudents: treats every GPA tie as the `TypeError`. Python compares two tuples' second items for identity first, so pushing the very same `Student` object twice does not raise. Object identity is not modelled.
- RootHeap.TopStudents: the same simplification for ties as `PackageHeap.TopStudents`.
