/**
 * `CourseGraph.get_course_path` of `datastructures/graph_branch.py`: a
 * depth-first search that marks a course visited before descending into its
 * prerequisites, appends the course after them, and returns the reversed
 * post-order. A back edge to a course already visited is skipped, so the search
 * ends on cyclic graphs too.
 */
module PathSearch {
  import opened Seqs
  import opened CourseGraph

  /** A walk along prerequisite edges: each step goes from a course to one of its prerequisites. */
  ghost predicate IsWalk(g: Graph, w: seq<string>) {
    forall i :: 0 <= i < |w| - 1 ==> w[i + 1] in Prereqs(g, w[i])
  }

  /** `b` is `a` or a transitive prerequisite of `a`. */
  ghost predicate Reaches(g: Graph, a: string, b: string) {
    exists w :: IsWalk(g, w) && |w| >= 1 && w[0] == a && w[|w| - 1] == b
  }

  /** No course is, directly or transitively, a prerequisite of itself. */
  ghost predicate Acyclic(g: Graph) {
    forall c, p :: p in Prereqs(g, c) ==> !Reaches(g, p, c)
  }

  lemma ReachesSelf(g: Graph, a: string)
    ensures Reaches(g, a, a)
  {
    assert IsWalk(g, [a]);
  }

  lemma ReachesStep(g: Graph, a: string, b: string, c: string)
    requires Reaches(g, a, b)
    requires c in Prereqs(g, b)
    ensures Reaches(g, a, c)
  {
    var w :| IsWalk(g, w) && |w| >= 1 && w[0] == a && w[|w| - 1] == b;
    assert IsWalk(g, w + [c]);
  }

  /** A set closed under prerequisite edges contains every course a walk from it visits. */
  lemma {:induction false} WalkStaysInside(g: Graph, inside: set<string>, w: seq<string>)
    requires forall c, p :: c in inside && p in Prereqs(g, c) ==> p in inside
    requires IsWalk(g, w) && |w| >= 1 && w[0] in inside
    ensures w[|w| - 1] in inside
  {
    if |w| > 1 {
      var w' := w[..|w| - 1];
      assert IsWalk(g, w');
      WalkStaysInside(g, inside, w');
      assert w[|w| - 1] in Prereqs(g, w'[|w'| - 1]);
    }
  }

  /** The state the nested `dfs` shares: the `visited` set and the `path` list. */
  datatype Search = Search(visited: set<string>, path: seq<string>)

  /** The inner `dfs(course)`. */
  function Visit(g: Graph, course: string, s: Search): (r: Search)
    ensures s.visited <= r.visited && course in r.visited
    ensures |s.path| <= |r.path| && r.path[..|s.path|] == s.path
    decreases g.Keys - s.visited, 0, 0
  {
    if course in s.visited then s
    else if course !in g then
      // `graph.get(course, [])` is empty: nothing to descend into.
      Search(s.visited + {course}, s.path + [course])
    else
      var t := VisitAll(g, g[course], Search(s.visited + {course}, s.path));
      Search(t.visited, t.path + [course])
  }

  /** The loop `for prereq in ...: dfs(prereq)`. */
  function VisitAll(g: Graph, prereqs: seq<string>, s: Search): (r: Search)
    ensures s.visited <= r.visited
    ensures forall i :: 0 <= i < |prereqs| ==> prereqs[i] in r.visited
    ensures |s.path| <= |r.path| && r.path[..|s.path|] == s.path
    decreases g.Keys - s.visited, 1, |prereqs|
  {
    if prereqs == [] then s
    else
      var s' := Visit(g, prereqs[0], s);
      var r := VisitAll(g, prereqs[1..], s');
      assert forall i :: 1 <= i < |prereqs| ==> prereqs[i] == prereqs[1..][i - 1];
      r
  }

  /** `get_course_path(target)`: empty for an unknown course, otherwise the target first. */
  function CoursePath(g: Graph, target: string): (r: seq<string>)
    ensures r == [] <==> target !in g
    ensures target in g ==> r[0] == target
  {
    if target !in g then []
    else Reverse(Visit(g, target, Search({}, [])).path)
  }

  // ---- What one call adds to the shared state ----------------------------------

  /** Courses visited but not yet appended: the `dfs` calls still on the stack. */
  ghost predicate Pending(s: Search, y: string) {
    y in s.visited && y !in s.path
  }

  /** The part of `r`'s path that was appended after `s`. */
  ghost function Added(s: Search, r: Search): seq<string>
    requires |s.path| <= |r.path|
  {
    r.path[|s.path|..]
  }

  /** `r` only adds to `s`: more courses visited, path extended at its end. */
  ghost predicate Grows(s: Search, r: Search) {
    s.visited <= r.visited && |s.path| <= |r.path| && r.path[..|s.path|] == s.path
  }

  /** The appended courses are distinct and are exactly the newly visited ones. */
  ghost predicate Fresh(s: Search, r: Search)
    requires Grows(s, r)
  {
    NoDup(Added(s, r)) && forall x :: x in Added(s, r) <==> x in r.visited && x !in s.visited
  }

  /** Every appended course is reachable from `root`. */
  ghost predicate Sound(g: Graph, root: string, s: Search, r: Search)
    requires Grows(s, r)
  {
    forall x :: x in Added(s, r) ==> Reaches(g, root, x)
  }

  /** The course at position `i` of `path` has all its prerequisites in `visited`. */
  ghost predicate Settled(g: Graph, path: seq<string>, i: int, visited: set<string>)
    requires 0 <= i < |path|
  {
    forall p :: p in Prereqs(g, path[i]) ==> p in visited
  }

  /** The course at position `i` of `path` follows its prerequisites, unless one leads back to it. */
  ghost predicate InOrder(g: Graph, path: seq<string>, i: int)
    requires 0 <= i < |path|
  {
    forall p :: p in Prereqs(g, path[i]) ==> p in path[..i] || Reaches(g, p, path[i])
  }

  /** Every appended course has all its prerequisites visited. */
  ghost predicate Complete(g: Graph, s: Search, r: Search)
    requires Grows(s, r)
  {
    forall i :: |s.path| <= i < |r.path| ==> Settled(g, r.path, i, r.visited)
  }

  /** Every appended course follows its prerequisites, unless a prerequisite leads back to it. */
  ghost predicate Ordered(g: Graph, s: Search, r: Search)
    requires Grows(s, r)
  {
    forall i :: |s.path| <= i < |r.path| ==> InOrder(g, r.path, i)
  }

  /** Everything a call that turns `s` into `r` guarantees. */
  ghost predicate Extends(g: Graph, root: string, s: Search, r: Search) {
    Grows(s, r) && Fresh(s, r) && Sound(g, root, s, r) && Complete(g, s, r) && Ordered(g, s, r)
  }

  /** Two extensions in a row are one extension. */
  lemma Compose(g: Graph, root: string, s: Search, s1: Search, r: Search)
    requires Extends(g, root, s, s1) && Extends(g, root, s1, r)
    ensures Extends(g, root, s, r)
  {
    ComposeGrows(s, s1, r);
    ComposeFresh(s, s1, r);
    assert Sound(g, root, s, r);
    ComposeOrdered(g, s, s1, r);
  }

  lemma ComposeGrows(s: Search, s1: Search, r: Search)
    requires Grows(s, s1) && Grows(s1, r)
    ensures Grows(s, r)
    ensures Added(s, r) == Added(s, s1) + Added(s1, r)
  {
    assert r.path[..|s.path|] == r.path[..|s1.path|][..|s.path|];
  }

  lemma ComposeOrdered(g: Graph, s: Search, s1: Search, r: Search)
    requires Grows(s, s1) && Grows(s1, r) && Grows(s, r)
    requires Complete(g, s, s1) && Complete(g, s1, r)
    requires Ordered(g, s, s1) && Ordered(g, s1, r)
    ensures Complete(g, s, r) && Ordered(g, s, r)
  {
    forall i | |s.path| <= i < |s1.path|
      ensures Settled(g, r.path, i, r.visited) && InOrder(g, r.path, i)
    {
      KeptEntry(g, s1.path, r.path, i, s1.visited, r.visited);
    }
  }

  /** An entry's facts survive extending the path after it and visiting more courses. */
  lemma KeptEntry(g: Graph, short: seq<string>, long: seq<string>, i: int,
                  visited: set<string>, visited': set<string>)
    requires |short| <= |long| && long[..|short|] == short && visited <= visited'
    requires 0 <= i < |short|
    requires Settled(g, short, i, visited) && InOrder(g, short, i)
    ensures Settled(g, long, i, visited') && InOrder(g, long, i)
  {
    assert long[i] == long[..|short|][i] == short[i];
    assert long[..i] == long[..|short|][..i] == short[..i];
  }

  lemma ComposeFresh(s: Search, s1: Search, r: Search)
    requires Grows(s, s1) && Grows(s1, r) && Grows(s, r)
    requires Fresh(s, s1) && Fresh(s1, r)
    requires Added(s, r) == Added(s, s1) + Added(s1, r)
    ensures Fresh(s, r)
  {
    var a, b := Added(s, s1), Added(s1, r);
    forall i, j | 0 <= i < j < |a + b| ensures (a + b)[i] != (a + b)[j] {
      if i < |a| && |a| <= j {
        assert (a + b)[i] in a && (a + b)[j] in b;
      }
    }
  }

  /** Appending the course itself after its prerequisites' search extends the state the call started in. */
  lemma AppendCourse(g: Graph, root: string, course: string, s: Search, t: Search)
    requires course !in s.visited && course in g
    requires Reaches(g, root, course)
    requires forall y :: Pending(s, y) ==> Reaches(g, y, course)
    requires forall p :: p in g[course] ==> p in t.visited
    requires Extends(g, root, Search(s.visited + {course}, s.path), t)
    ensures Extends(g, root, s, Search(t.visited, t.path + [course]))
  {
    var s1 := Search(s.visited + {course}, s.path);
    var r := Search(t.visited, t.path + [course]);
    assert Grows(s, r);
    assert Added(s, r) == Added(s1, t) + [course];
    AppendFresh(course, s, t);
    assert Sound(g, root, s, r);
    AppendOrdered(g, root, course, s, t);
  }

  lemma AppendFresh(course: string, s: Search, t: Search)
    requires course !in s.visited
    requires Grows(Search(s.visited + {course}, s.path), t)
    requires Fresh(Search(s.visited + {course}, s.path), t)
    ensures Grows(s, Search(t.visited, t.path + [course]))
    ensures Fresh(s, Search(t.visited, t.path + [course]))
  {
    var s1 := Search(s.visited + {course}, s.path);
    var r := Search(t.visited, t.path + [course]);
    assert Added(s, r) == Added(s1, t) + [course];
  }

  lemma AppendOrdered(g: Graph, root: string, course: string, s: Search, t: Search)
    requires course !in s.visited && course in g
    requires forall y :: Pending(s, y) ==> Reaches(g, y, course)
    requires forall p :: p in g[course] ==> p in t.visited
    requires Extends(g, root, Search(s.visited + {course}, s.path), t)
    requires Grows(s, Search(t.visited, t.path + [course]))
    ensures Complete(g, s, Search(t.visited, t.path + [course]))
    ensures Ordered(g, s, Search(t.visited, t.path + [course]))
  {
    var s1 := Search(s.visited + {course}, s.path);
    var r := Search(t.visited, t.path + [course]);
    forall i | |s.path| <= i < |t.path|
      ensures Settled(g, r.path, i, r.visited) && InOrder(g, r.path, i)
    {
      KeptEntry(g, t.path, r.path, i, t.visited, r.visited);
    }
    var i := |t.path|;
    assert r.path[i] == course;
    assert r.path[..i] == t.path;
    forall p | p in g[course] ensures p in r.path[..i] || Reaches(g, p, course) {
      if p !in t.path {
        if p == course {
          ReachesSelf(g, course);
        } else {
          assert p !in Added(s1, t);
          assert Pending(s, p);
        }
      }
    }
    assert Settled(g, r.path, i, r.visited) && InOrder(g, r.path, i);
  }

  lemma {:induction false} VisitExtends(g: Graph, root: string, course: string, s: Search)
    requires Reaches(g, root, course)
    requires forall y :: Pending(s, y) ==> Reaches(g, y, course)
    ensures Extends(g, root, s, Visit(g, course, s))
    decreases g.Keys - s.visited, 0, 0
  {
    var r := Visit(g, course, s);
    if course in s.visited {
      assert Added(s, r) == [];
    } else if course !in g {
      assert Added(s, r) == [course];
    } else {
      var s1 := Search(s.visited + {course}, s.path);
      forall y, p | Pending(s1, y) && p in g[course] ensures Reaches(g, y, p) {
        if y == course {
          ReachesSelf(g, course);
        }
        ReachesStep(g, y, course, p);
      }
      forall p | p in g[course] ensures Reaches(g, root, p) {
        ReachesStep(g, root, course, p);
      }
      VisitAllExtends(g, root, g[course], s1);
      var t := VisitAll(g, g[course], s1);
      forall p | p in g[course] ensures p in t.visited {
        var i :| 0 <= i < |g[course]| && g[course][i] == p;
      }
      AppendCourse(g, root, course, s, t);
    }
  }

  lemma {:induction false} VisitAllExtends(g: Graph, root: string, prereqs: seq<string>, s: Search)
    requires forall p :: p in prereqs ==> Reaches(g, root, p)
    requires forall y, p :: Pending(s, y) && p in prereqs ==> Reaches(g, y, p)
    ensures Extends(g, root, s, VisitAll(g, prereqs, s))
    decreases g.Keys - s.visited, 1, |prereqs|
  {
    var r := VisitAll(g, prereqs, s);
    if prereqs == [] {
      assert Added(s, r) == [];
    } else {
      var s1 := Visit(g, prereqs[0], s);
      VisitExtends(g, root, prereqs[0], s);
      forall y | Pending(s1, y) ensures Pending(s, y) {
        assert s1.path == s.path + Added(s, s1);
      }
      VisitAllExtends(g, root, prereqs[1..], s1);
      Compose(g, root, s, s1, r);
    }
  }

  /** The facts about one whole search started from scratch at a known course. */
  lemma SearchFacts(g: Graph, target: string)
    requires target in g
    ensures Extends(g, target, Search({}, []), Visit(g, target, Search({}, [])))
  {
    ReachesSelf(g, target);
    VisitExtends(g, target, target, Search({}, []));
  }

  // ---- Properties of get_course_path --------------------------------------------

  /** No course is listed twice. */
  lemma CoursePathDistinct(g: Graph, target: string)
    ensures NoDup(CoursePath(g, target))
  {
    if target in g {
      SearchFacts(g, target);
      var path := Visit(g, target, Search({}, [])).path;
      assert path[0..] == path;
    }
  }

  /** The listed courses are exactly the target and its transitive prerequisites. */
  lemma CoursePathReachable(g: Graph, target: string, x: string)
    requires target in g
    ensures x in CoursePath(g, target) <==> Reaches(g, target, x)
  {
    SearchFacts(g, target);
    var r := Visit(g, target, Search({}, []));
    assert r.path[0..] == r.path;
    var rev := CoursePath(g, target);
    assert x in rev <==> x in r.path by {
      if x in rev {
        var i :| 0 <= i < |rev| && rev[i] == x;
        assert r.path[|r.path| - 1 - i] == x;
      }
      if x in r.path {
        var i :| 0 <= i < |r.path| && r.path[i] == x;
        assert rev[|r.path| - 1 - i] == x;
      }
    }
    if Reaches(g, target, x) {
      forall c, p | c in r.visited && p in Prereqs(g, c) ensures p in r.visited {
        var i :| 0 <= i < |r.path| && r.path[i] == c;
        assert Settled(g, r.path, i, r.visited);
      }
      var w :| IsWalk(g, w) && |w| >= 1 && w[0] == target && w[|w| - 1] == x;
      WalkStaysInside(g, r.visited, w);
    }
  }

  /**
   * Each listed course comes before each of its prerequisites, except a
   * prerequisite that leads back to the course (the skipped back edge).
   */
  lemma CoursePathOrder(g: Graph, target: string)
    ensures var r := CoursePath(g, target);
      forall i, p :: 0 <= i < |r| && p in Prereqs(g, r[i]) ==> p in r[i + 1..] || Reaches(g, p, r[i])
  {
    if target in g {
      SearchFacts(g, target);
      var path := Visit(g, target, Search({}, [])).path;
      var r := CoursePath(g, target);
      forall i, p | 0 <= i < |r| && p in Prereqs(g, r[i])
        ensures p in r[i + 1..] || Reaches(g, p, r[i])
      {
        var k := |path| - 1 - i;
        assert r[i] == path[k];
        assert InOrder(g, path, k);
        if p in path[..k] {
          ReverseMovesEarlierLater(path, k, p);
        }
      }
    }
  }

  /** On an acyclic graph every listed course comes before all of its prerequisites. */
  lemma CoursePathTopological(g: Graph, target: string)
    requires Acyclic(g)
    ensures var r := CoursePath(g, target);
      forall i, p :: 0 <= i < |r| && p in Prereqs(g, r[i]) ==> p in r[i + 1..]
  {
    CoursePathOrder(g, target);
  }

  // ---- Scenarios -----------------------------------------------------------------

  /** The graph `graph_test.py` builds with two `add_course` calls on an empty map. */
  lemma GraphTestGraph()
    ensures AddCourse(AddCourse(map[], "Algorithms", ["Data Structures"]),
                      "Data Structures", ["Intro to Programming"])
         == map["Algorithms" := ["Data Structures"], "Data Structures" := ["Intro to Programming"],
                "Intro to Programming" := []]
  {
  }

  /** The search over a three-course chain, call by call. */
  lemma ChainSearch(a: string, d: string, i: string)
    requires a != d && d != i && a != i
    ensures CoursePath(map[a := [d], d := [i], i := []], a) == [a, d, i]
  {
    var g := map[a := [d], d := [i], i := []];
    assert {a, d} + {i} == {a, d, i} && {a} + {d} == {a, d} && {} + {a} == {a};
    assert VisitAll(g, [], Search({a, d, i}, [])) == Search({a, d, i}, []);
    var deepest := Visit(g, i, Search({a, d}, []));
    assert deepest == Search({a, d, i}, [i]);
    assert VisitAll(g, [i], Search({a, d}, [])) == deepest;
    var middle := Visit(g, d, Search({a}, []));
    assert middle == Search({a, d, i}, [i, d]);
    assert VisitAll(g, [d], Search({a}, [])) == middle;
    assert Visit(g, a, Search({}, [])) == Search({a, d, i}, [i, d, a]);
  }

  /** The `graph_test.py` scenario: the target first, then its prerequisites. */
  lemma GraphTestScenario()
    ensures var g := AddCourse(AddCourse(map[], "Algorithms", ["Data Structures"]),
                               "Data Structures", ["Intro to Programming"]);
      CoursePath(g, "Algorithms") == ["Algorithms", "Data Structures", "Intro to Programming"]
  {
    GraphTestGraph();
    ChainSearch("Algorithms", "Data Structures", "Intro to Programming");
  }

  /** A two-course cycle: the search ends, and the back edge is skipped. */
  lemma CycleScenario()
    ensures CoursePath(map["A" := ["B"], "B" := ["A"]], "A") == ["A", "B"]
  {
    var g := map["A" := ["B"], "B" := ["A"]];
    assert {"A"} + {"B"} == {"A", "B"} && {} + {"A"} == {"A"};
    assert Visit(g, "A", Search({"A", "B"}, [])) == Search({"A", "B"}, []);
    assert VisitAll(g, ["A"], Search({"A", "B"}, [])) == Search({"A", "B"}, []);
    assert Visit(g, "B", Search({"A"}, [])) == Search({"A", "B"}, ["B"]);
    assert VisitAll(g, ["B"], Search({"A"}, [])) == Search({"A", "B"}, ["B"]);
    assert Visit(g, "A", Search({}, [])) == Search({"A", "B"}, ["B", "A"]);
  }
}
