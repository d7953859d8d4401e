/**
 salesforce_relationship_graph: depth-bounded DFS, along parent or along child relationships, with a
 shared stack of visited objects. In either direction its resolved rows are exactly the simple walks
 of the describe graph, each once, at their own depth, although the two walks test their guards in
 different orders and end in different dead ends.
 */
module RelationshipGraph {
  import opened Text
  import opened Describe

  datatype Direction = ToParents | ToChildren

  /** What the metadata engine answers, describes by lower-cased name, and which way the walk goes. */
  datatype Graph = Graph(describes: map<string, ObjectDescribe>, queryable: seq<string>, direction: Direction)

  /** A relationship as the walk meets it: its name, the objects it leads to, what the row lists as referenceTo. */
  datatype Edge = Edge(name: string, targets: seq<string>, referenceTo: seq<string>)

  predicate Describable(g: Graph, o: string) {
    Lower(o) in g.describes
  }

  function ParentEdge(f: Field): Edge {
    Edge(f.relationshipName, f.referenceTo, f.referenceTo)
  }

  function ChildEdge(c: ChildRelationship): Edge {
    Edge(c.relationshipName, [c.childObject], if c.field == "" then [] else [c.field])
  }

  function EdgesOf(g: Graph, o: string): seq<Edge> {
    if !Describable(g, o) then []
    else
      var desc := g.describes[Lower(o)];
      match g.direction
      case ToParents => seq(|desc.fields|, k requires 0 <= k < |desc.fields| => ParentEdge(desc.fields[k]))
      case ToChildren =>
        seq(|desc.childRelationships|, k requires 0 <= k < |desc.childRelationships| =>
          ChildEdge(desc.childRelationships[k]))
  }

  predicate Queryable(g: Graph, o: string) {
    exists i | 0 <= i < |g.queryable| :: CIEquals(g.queryable[i], o)
  }

  predicate OnPath(visited: seq<string>, o: string) {
    exists i | 0 <= i < |visited| :: CIEquals(visited[i], o)
  }

  datatype Status = Polymorphic | SelfReference | UnnamedChild | Cyclic | NotQueryable | NotDescribable | Resolved

  datatype EdgeRow = EdgeRow(
    source: string,
    relationshipName: string,
    path: string,
    depthLevel: nat,
    target: Option<string>,
    referenceTo: seq<string>,
    direction: Direction,
    status: Status)

  // ----- The walk -----------------------------------------------------------

  function Last<T>(s: seq<T>): T
    requires |s| > 0
  {
    s[|s| - 1]
  }

  /** How a named reference field of the current object is classified; `left` levels remain below it. */
  function ParentStatus(g: Graph, e: Edge, visited: seq<string>, left: nat): Status
    requires |visited| > 0
  {
    if |e.targets| != 1 then Polymorphic
    else
      var target := e.targets[0];
      if CIEquals(target, Last(visited)) then SelfReference
      else if OnPath(visited, target) then Cyclic
      else if !Queryable(g, target) then NotQueryable
      else if left > 0 && !Describable(g, target) then NotDescribable
      else Resolved
  }

  /** The same for a child relationship: unnamed ones are dead ends, and queryability comes before cycles. */
  function ChildStatus(g: Graph, e: Edge, visited: seq<string>, left: nat): Status
    requires |e.targets| == 1
  {
    var target := e.targets[0];
    if e.name == "" then UnnamedChild
    else if !Queryable(g, target) then NotQueryable
    else if OnPath(visited, target) then Cyclic
    else if left > 0 && !Describable(g, target) then NotDescribable
    else Resolved
  }

  function StatusOf(g: Graph, e: Edge, visited: seq<string>, left: nat): Status
    requires |visited| > 0
  {
    if g.direction == ToChildren && |e.targets| == 1 then ChildStatus(g, e, visited, left)
    else ParentStatus(g, e, visited, left)
  }

  function TargetOf(g: Graph, e: Edge, s: Status): Option<string> {
    if |e.targets| == 0 || (g.direction == ToParents && (s == Polymorphic || s == NotQueryable)) then None
    else Some(e.targets[0])
  }

  function PathTo(prefix: string, name: string): string {
    if prefix == "" then name else prefix + "." + name
  }

  /** The name an edge has in a path: an unnamed child goes by its object. */
  function PathName(g: Graph, e: Edge): string {
    if g.direction == ToChildren && e.name == "" && |e.targets| > 0 then "child:" + e.targets[0] else e.name
  }

  function RowFor(g: Graph, e: Edge, visited: seq<string>, prefix: string, depth: nat, left: nat): EdgeRow
    requires |visited| > 0
  {
    var s := StatusOf(g, e, visited, left);
    EdgeRow(Last(visited), e.name, PathTo(prefix, PathName(g, e)), depth, TargetOf(g, e, s), e.referenceTo,
            g.direction, s)
  }

  /** A field without a relationship name gives no row; a child relationship always does. */
  predicate Skipped(g: Graph, e: Edge) {
    g.direction == ToParents && e.name == ""
  }

  /** The rows appended for one edge of the current object, with everything below it. */
  function EdgeRows(g: Graph, visited: seq<string>, prefix: string, depth: nat, left: nat, e: Edge): seq<EdgeRow>
    requires |visited| > 0
    decreases left, 0
  {
    if Skipped(g, e) then []
    else
      var row := RowFor(g, e, visited, prefix, depth, left);
      if row.status == Resolved && left > 0
      then [row] + RowsFrom(g, visited + [e.targets[0]], row.path, depth + 1, left - 1, 0)
      else [row]
  }

  /** The rows appended for the current object's edges from index k on. */
  function RowsFrom(g: Graph, visited: seq<string>, prefix: string, depth: nat, left: nat, k: nat): seq<EdgeRow>
    requires |visited| > 0
    decreases left, |EdgesOf(g, Last(visited))| - k + 1
  {
    var edges := EdgesOf(g, Last(visited));
    if k >= |edges| then []
    else EdgeRows(g, visited, prefix, depth, left, edges[k]) + RowsFrom(g, visited, prefix, depth, left, k + 1)
  }

  /** In either direction, and whatever the order of the guards, the same edges are resolved. */
  lemma ResolvedIff(g: Graph, e: Edge, visited: seq<string>, left: nat)
    requires |visited| > 0
    ensures !Skipped(g, e) && StatusOf(g, e, visited, left) == Resolved <==>
            && e.name != "" && |e.targets| == 1
            && !OnPath(visited, e.targets[0]) && Queryable(g, e.targets[0])
            && (left > 0 ==> Describable(g, e.targets[0]))
  {
    assert visited[|visited| - 1] == Last(visited);
  }

  /** The traversal's shared vectors. */
  class GraphWalk {
    const graph: Graph
    var visited: seq<string>
    var rows: seq<EdgeRow>

    constructor (graph: Graph, root: string, rows: seq<EdgeRow>)
      ensures this.graph == graph && visited == [root] && this.rows == rows
    {
      this.graph := graph;
      visited, this.rows := [root], rows;
    }

    /** One turn of the field loop: push, recurse, pop. */
    method VisitField(e: Edge, prefix: string, depth: nat, maxDepth: nat)
      requires graph.direction == ToParents && |visited| > 0 && depth <= maxDepth
      modifies this
      ensures visited == old(visited)
      ensures rows == old(rows) + EdgeRows(graph, old(visited), prefix, depth, maxDepth - depth, e)
      decreases maxDepth - depth, 0
    {
      if e.name == "" {
        return;
      }
      var row := EdgeRow(Last(visited), e.name, PathTo(prefix, e.name), depth, None, e.referenceTo,
                         ToParents, Resolved);
      if |e.targets| != 1 {
        rows := rows + [row.(status := Polymorphic)];
        return;
      }
      var target := e.targets[0];
      if CIEquals(target, Last(visited)) {
        rows := rows + [row.(status := SelfReference, target := Some(target))];
        return;
      }
      if OnPath(visited, target) {
        rows := rows + [row.(status := Cyclic, target := Some(target))];
        return;
      }
      if !Queryable(graph, target) {
        rows := rows + [row.(status := NotQueryable)];
        return;
      }
      row := row.(target := Some(target));
      if depth < maxDepth {
        if !Describable(graph, target) {
          rows := rows + [row.(status := NotDescribable)];
          return;
        }
        Assoc(rows, [row], RowsFrom(graph, visited + [target], row.path, depth + 1, maxDepth - depth - 1, 0));
        rows := rows + [row];
        visited := visited + [target];
        RelGraphWalk(target, row.path, depth + 1, maxDepth);
        visited := visited[..|visited| - 1];
      } else {
        rows := rows + [row];
      }
    }

    method RelGraphWalk(current: string, prefix: string, depth: nat, maxDepth: nat)
      requires graph.direction == ToParents && |visited| > 0 && Last(visited) == current && depth <= maxDepth
      modifies this
      ensures visited == old(visited)
      ensures rows == old(rows) + RowsFrom(graph, old(visited), prefix, depth, maxDepth - depth, 0)
      decreases maxDepth - depth, 1
    {
      if !Describable(graph, current) {
        return;
      }
      var edges := EdgesOf(graph, current);
      ghost var left := maxDepth - depth;
      for k := 0 to |edges|
        invariant visited == old(visited)
        invariant rows + RowsFrom(graph, visited, prefix, depth, left, k) ==
                  old(rows) + RowsFrom(graph, visited, prefix, depth, left, 0)
      {
        Assoc(rows, EdgeRows(graph, visited, prefix, depth, left, edges[k]),
              RowsFrom(graph, visited, prefix, depth, left, k + 1));
        VisitField(edges[k], prefix, depth, maxDepth);
      }
    }

    /** One turn of the loop over child relationships: every one gets a row. */
    method VisitChild(e: Edge, prefix: string, depth: nat, maxDepth: nat)
      requires graph.direction == ToChildren && |e.targets| == 1 && |visited| > 0 && depth <= maxDepth
      modifies this
      ensures visited == old(visited)
      ensures rows == old(rows) + EdgeRows(graph, old(visited), prefix, depth, maxDepth - depth, e)
      decreases maxDepth - depth, 0
    {
      var child := e.targets[0];
      var row := EdgeRow(Last(visited), e.name, PathTo(prefix, e.name), depth, Some(child), e.referenceTo,
                         ToChildren, Resolved);
      if e.name == "" {
        rows := rows + [row.(path := PathTo(prefix, "child:" + child), status := UnnamedChild)];
        return;
      }
      if !Queryable(graph, child) {
        rows := rows + [row.(status := NotQueryable)];
        return;
      }
      if OnPath(visited, child) {
        rows := rows + [row.(status := Cyclic)];
        return;
      }
      if depth < maxDepth {
        if !Describable(graph, child) {
          rows := rows + [row.(status := NotDescribable)];
          return;
        }
        Assoc(rows, [row], RowsFrom(graph, visited + [child], row.path, depth + 1, maxDepth - depth - 1, 0));
        rows := rows + [row];
        visited := visited + [child];
        RelGraphChildWalk(child, row.path, depth + 1, maxDepth);
        visited := visited[..|visited| - 1];
      } else {
        rows := rows + [row];
      }
    }

    method RelGraphChildWalk(current: string, prefix: string, depth: nat, maxDepth: nat)
      requires graph.direction == ToChildren && |visited| > 0 && Last(visited) == current && depth <= maxDepth
      modifies this
      ensures visited == old(visited)
      ensures rows == old(rows) + RowsFrom(graph, old(visited), prefix, depth, maxDepth - depth, 0)
      decreases maxDepth - depth, 1
    {
      if !Describable(graph, current) {
        return;
      }
      var edges := EdgesOf(graph, current);
      ghost var left := maxDepth - depth;
      for k := 0 to |edges|
        invariant visited == old(visited)
        invariant rows + RowsFrom(graph, visited, prefix, depth, left, k) ==
                  old(rows) + RowsFrom(graph, visited, prefix, depth, left, 0)
      {
        Assoc(rows, EdgeRows(graph, visited, prefix, depth, left, edges[k]),
              RowsFrom(graph, visited, prefix, depth, left, k + 1));
        VisitChild(edges[k], prefix, depth, maxDepth);
      }
    }
  }

  // ----- Simple walks --------------------------------------------------------

  /** A walk: the objects it passes through and the field indices it follows. */
  datatype Trail = Trail(objects: seq<string>, edges: seq<nat>)

  predicate Shaped(t: Trail) {
    |t.objects| == |t.edges| + 1
  }

  /** Edge i: a named relationship to one queryable object not met before. */
  predicate StepOk(g: Graph, t: Trail, i: nat)
    requires Shaped(t) && i < |t.edges|
  {
    && t.edges[i] < |EdgesOf(g, t.objects[i])|
    && var e := EdgesOf(g, t.objects[i])[t.edges[i]];
       && e.name != "" && e.targets == [t.objects[i + 1]]
       && !OnPath(t.objects[..i + 1], t.objects[i + 1])
       && Queryable(g, t.objects[i + 1])
  }

  /**
   A simple walk from root of at most maxDepth edges: no object twice, whatever the case of
   its name; every object it could be continued from can be described.
   */
  predicate SimpleWalk(g: Graph, root: string, maxDepth: nat, t: Trail) {
    && Shaped(t) && t.objects[0] == root && 1 <= |t.edges| <= maxDepth
    && (forall i | 0 <= i < |t.edges| :: StepOk(g, t, i))
    && (|t.edges| < maxDepth ==> Describable(g, Last(t.objects)))
  }

  predicate Walkable(g: Graph, t: Trail) {
    Shaped(t) && forall i | 0 <= i < |t.edges| :: StepOk(g, t, i)
  }

  /** A walk of at least one edge. */
  predicate Walked(g: Graph, t: Trail) {
    Walkable(g, t) && |t.edges| > 0
  }

  function EdgeAt(g: Graph, t: Trail, i: nat): Edge
    requires Shaped(t) && i < |t.edges| && t.edges[i] < |EdgesOf(g, t.objects[i])|
  {
    EdgesOf(g, t.objects[i])[t.edges[i]]
  }

  /** The dotted relationship names along the first n edges. */
  function TrailPath(g: Graph, t: Trail, n: nat): string
    requires Walkable(g, t) && n <= |t.edges|
  {
    if n == 0 then ""
    else
      assert StepOk(g, t, n - 1);
      PathTo(TrailPath(g, t, n - 1), EdgeAt(g, t, n - 1).name)
  }

  /** The row a simple walk stands for: its last edge, at a depth equal to its length. */
  function TrailRow(g: Graph, t: Trail): EdgeRow
    requires Walked(g, t)
  {
    var n := |t.edges|;
    assert StepOk(g, t, n - 1);
    var e := EdgeAt(g, t, n - 1);
    EdgeRow(t.objects[n - 1], e.name, TrailPath(g, t, n), n, Some(t.objects[n]), e.referenceTo, g.direction, Resolved)
  }

  // ----- The walks in traversal order ------------------------------------------

  function Extend(t: Trail, target: string, k: nat): Trail {
    Trail(t.objects + [target], t.edges + [k])
  }

  predicate EdgeResolved(g: Graph, t: Trail, left: nat, e: Edge)
    requires |t.objects| > 0
  {
    !Skipped(g, e) && StatusOf(g, e, t.objects, left) == Resolved
  }

  function EdgeTrails(g: Graph, t: Trail, left: nat, k: nat): seq<Trail>
    requires |t.objects| > 0 && k < |EdgesOf(g, Last(t.objects))|
    decreases left, 0
  {
    var e := EdgesOf(g, Last(t.objects))[k];
    if !EdgeResolved(g, t, left, e) then []
    else
      var u := Extend(t, e.targets[0], k);
      if left > 0 then [u] + TrailsFrom(g, u, left - 1, 0) else [u]
  }

  function TrailsFrom(g: Graph, t: Trail, left: nat, k: nat): seq<Trail>
    requires |t.objects| > 0
    decreases left, |EdgesOf(g, Last(t.objects))| - k + 1
  {
    if k >= |EdgesOf(g, Last(t.objects))| then []
    else EdgeTrails(g, t, left, k) + TrailsFrom(g, t, left, k + 1)
  }

  /** u continues t by one to left+1 valid edges. */
  predicate Continues(g: Graph, t: Trail, left: nat, u: Trail) {
    && Shaped(t) && Shaped(u)
    && |t.edges| < |u.edges| <= |t.edges| + left + 1
    && u.edges[..|t.edges|] == t.edges && u.objects[..|t.objects|] == t.objects
    && (forall i | |t.edges| <= i < |u.edges| :: StepOk(g, u, i))
    && (|u.edges| < |t.edges| + left + 1 ==> Describable(g, Last(u.objects)))
  }

  lemma StepIsResolved(g: Graph, t: Trail, left: nat, u: Trail)
    requires Continues(g, t, left, u)
    requires left > 0 ==> Describable(g, u.objects[|t.edges| + 1])
    ensures var k, here := u.edges[|t.edges|], EdgesOf(g, Last(t.objects));
            k < |here| && here[k].targets == [u.objects[|t.edges| + 1]] && EdgeResolved(g, t, left, here[k])
  {
    var n := |t.edges|;
    assert StepOk(g, u, n);
    assert u.objects[n] == u.objects[..n + 1][n] == Last(t.objects);
    assert u.objects[..n + 1] == t.objects;
  }

  /** The object after the first new edge is describable whenever the walk may go on from it. */
  lemma FirstTargetDescribable(g: Graph, t: Trail, left: nat, u: Trail)
    requires Continues(g, t, left, u) && left > 0
    ensures Describable(g, u.objects[|t.edges| + 1])
  {
    var n := |t.edges|;
    if |u.edges| == n + 1 {
      assert Last(u.objects) == u.objects[n + 1];
    } else {
      assert StepOk(g, u, n + 1);
    }
  }

  lemma ResolvedStep(g: Graph, t: Trail, left: nat, k: nat)
    requires Shaped(t) && k < |EdgesOf(g, Last(t.objects))|
    requires EdgeResolved(g, t, left, EdgesOf(g, Last(t.objects))[k])
    ensures var u := Extend(t, EdgesOf(g, Last(t.objects))[k].targets[0], k);
            Continues(g, t, left, u) && StepOk(g, u, |t.edges|)
  {
    var u := Extend(t, EdgesOf(g, Last(t.objects))[k].targets[0], k);
    assert u.objects[..|t.edges| + 1] == t.objects;
    assert EdgesOf(g, u.objects[|t.edges|])[k].targets == [u.objects[|t.edges| + 1]];
  }

  /** Continuing through edge k leads to the extended walk itself, or to a continuation of it. */
  lemma ThroughEdge(g: Graph, t: Trail, left: nat, k: nat, u: Trail)
    requires Continues(g, t, left, u) && u.edges[|t.edges|] == k && k < |EdgesOf(g, Last(t.objects))|
    requires EdgeResolved(g, t, left, EdgesOf(g, Last(t.objects))[k])
    ensures var v := Extend(t, EdgesOf(g, Last(t.objects))[k].targets[0], k);
            u == v || (left > 0 && Continues(g, v, left - 1, u))
  {
    var v := Extend(t, EdgesOf(g, Last(t.objects))[k].targets[0], k);
    var n := |t.edges|;
    if left > 0 { FirstTargetDescribable(g, t, left, u); }
    StepIsResolved(g, t, left, u);
    assert u.objects[n + 1] == v.objects[n + 1];
    if |u.edges| == n + 1 {
      assert u.edges == u.edges[..n] + [k];
      assert u.objects == u.objects[..n + 1] + [u.objects[n + 1]];
    } else {
      assert u.edges[..n + 1] == u.edges[..n] + [k];
      assert u.objects[..n + 2] == u.objects[..n + 1] + [u.objects[n + 1]];
    }
  }

  lemma ExtendedContinues(g: Graph, t: Trail, left: nat, k: nat, u: Trail)
    requires Shaped(t) && k < |EdgesOf(g, Last(t.objects))| && left > 0
    requires EdgeResolved(g, t, left, EdgesOf(g, Last(t.objects))[k])
    requires Continues(g, Extend(t, EdgesOf(g, Last(t.objects))[k].targets[0], k), left - 1, u)
    ensures Continues(g, t, left, u) && u.edges[|t.edges|] == k
  {
    var v := Extend(t, EdgesOf(g, Last(t.objects))[k].targets[0], k);
    var n := |t.edges|;
    ResolvedStep(g, t, left, k);
    assert u.edges[..n] == u.edges[..n + 1][..n] && u.objects[..n + 1] == u.objects[..n + 2][..n + 1];
    assert u.edges[n] == u.edges[..n + 1][n];
    SameStep(g, u, v, n);
  }

  /** Continuing through edge k is the extended walk itself, or a continuation of it. */
  lemma ContinuesThrough(g: Graph, t: Trail, left: nat, k: nat, u: Trail)
    requires Shaped(t) && k < |EdgesOf(g, Last(t.objects))|
    requires EdgeResolved(g, t, left, EdgesOf(g, Last(t.objects))[k])
    ensures var v := Extend(t, EdgesOf(g, Last(t.objects))[k].targets[0], k);
            (Continues(g, t, left, u) && u.edges[|t.edges|] == k) <==>
            (u == v || (left > 0 && Continues(g, v, left - 1, u)))
  {
    var v := Extend(t, EdgesOf(g, Last(t.objects))[k].targets[0], k);
    ResolvedStep(g, t, left, k);
    if Continues(g, t, left, u) && u.edges[|t.edges|] == k { ThroughEdge(g, t, left, k, u); }
    if left > 0 && Continues(g, v, left - 1, u) { ExtendedContinues(g, t, left, k, u); }
  }

  lemma SameStep(g: Graph, u: Trail, v: Trail, i: nat)
    requires Shaped(u) && Shaped(v) && i < |v.edges| <= |u.edges|
    requires u.edges[..|v.edges|] == v.edges && u.objects[..|v.objects|] == v.objects
    requires StepOk(g, v, i)
    ensures StepOk(g, u, i)
  {
    assert u.edges[i] == u.edges[..|v.edges|][i];
    assert u.objects[i] == u.objects[..|v.objects|][i] && u.objects[i + 1] == u.objects[..|v.objects|][i + 1];
    assert u.objects[..i + 1] == v.objects[..i + 1];
  }

  lemma {:induction false} EdgeTrailsAre(g: Graph, t: Trail, left: nat, k: nat, u: Trail)
    requires Shaped(t) && k < |EdgesOf(g, Last(t.objects))|
    ensures u in EdgeTrails(g, t, left, k) <==> Continues(g, t, left, u) && u.edges[|t.edges|] == k
    decreases left, 0
  {
    var e := EdgesOf(g, Last(t.objects))[k];
    if Continues(g, t, left, u) {
      if left > 0 { FirstTargetDescribable(g, t, left, u); }
      StepIsResolved(g, t, left, u);
    }
    if EdgeResolved(g, t, left, e) {
      ContinuesThrough(g, t, left, k, u);
      if left > 0 { TrailsAreContinuations(g, Extend(t, e.targets[0], k), left - 1, 0, u); }
    }
  }

  /** Sound and complete: the listed walks are the continuations, no more and no fewer. */
  lemma {:induction false} TrailsAreContinuations(g: Graph, t: Trail, left: nat, k: nat, u: Trail)
    requires Shaped(t)
    ensures u in TrailsFrom(g, t, left, k) <==> Continues(g, t, left, u) && u.edges[|t.edges|] >= k
    decreases left, |EdgesOf(g, Last(t.objects))| - k + 1
  {
    if k < |EdgesOf(g, Last(t.objects))| {
      EdgeTrailsAre(g, t, left, k, u);
      TrailsAreContinuations(g, t, left, k + 1, u);
    } else if Continues(g, t, left, u) {
      if left > 0 { FirstTargetDescribable(g, t, left, u); }
      StepIsResolved(g, t, left, u);
    }
  }

  predicate NoDuplicates<T(==)>(s: seq<T>) {
    forall i, j | 0 <= i < j < |s| :: s[i] != s[j]
  }

  lemma NoDuplicatesAppend<T>(a: seq<T>, b: seq<T>)
    requires NoDuplicates(a) && NoDuplicates(b) && forall x :: x in a ==> x !in b
    ensures NoDuplicates(a + b)
  {
    var c := a + b;
    forall i, j | 0 <= i < j < |c| ensures c[i] != c[j] {
      if i < |a| <= j { assert c[i] in a && c[j] in b; }
    }
  }

  lemma {:induction false} EdgeTrailsDistinct(g: Graph, t: Trail, left: nat, k: nat)
    requires Shaped(t) && k < |EdgesOf(g, Last(t.objects))|
    ensures NoDuplicates(EdgeTrails(g, t, left, k))
    decreases left, 0
  {
    var e := EdgesOf(g, Last(t.objects))[k];
    if EdgeResolved(g, t, left, e) && left > 0 {
      var v := Extend(t, e.targets[0], k);
      TrailsAreDistinct(g, v, left - 1, 0);
      TrailsAreContinuations(g, v, left - 1, 0, v);
      NoDuplicatesAppend([v], TrailsFrom(g, v, left - 1, 0));
    }
  }

  /** Each walk is listed once. */
  lemma {:induction false} TrailsAreDistinct(g: Graph, t: Trail, left: nat, k: nat)
    requires Shaped(t)
    ensures NoDuplicates(TrailsFrom(g, t, left, k))
    decreases left, |EdgesOf(g, Last(t.objects))| - k + 1
  {
    if k < |EdgesOf(g, Last(t.objects))| {
      var here, rest := EdgeTrails(g, t, left, k), TrailsFrom(g, t, left, k + 1);
      EdgeTrailsDistinct(g, t, left, k);
      TrailsAreDistinct(g, t, left, k + 1);
      forall u | u in here ensures u !in rest {
        EdgeTrailsAre(g, t, left, k, u);
        TrailsAreContinuations(g, t, left, k + 1, u);
      }
      NoDuplicatesAppend(here, rest);
    }
  }

  // ----- Rows and walks ------------------------------------------------------

  function ResolvedRows(rows: seq<EdgeRow>): seq<EdgeRow> {
    if |rows| == 0 then []
    else (if rows[0].status == Resolved then [rows[0]] else []) + ResolvedRows(rows[1..])
  }

  lemma {:induction false} ResolvedAppend(a: seq<EdgeRow>, b: seq<EdgeRow>)
    ensures ResolvedRows(a + b) == ResolvedRows(a) + ResolvedRows(b)
  {
    if |a| == 0 {
      assert a + b == b;
    } else {
      assert (a + b)[1..] == a[1..] + b;
      ResolvedAppend(a[1..], b);
      Assoc(if a[0].status == Resolved then [a[0]] else [], ResolvedRows(a[1..]), ResolvedRows(b));
    }
  }

  function TrailRows(g: Graph, ts: seq<Trail>): (rows: seq<EdgeRow>)
    requires AllWalked(g, ts)
    ensures |rows| == |ts| && forall i | 0 <= i < |ts| :: rows[i] == TrailRow(g, ts[i])
  {
    seq(|ts|, i requires 0 <= i < |ts| => TrailRow(g, ts[i]))
  }

  lemma {:induction false} TrailPathPrefix(g: Graph, u: Trail, v: Trail, n: nat)
    requires Walkable(g, u) && Walkable(g, v) && n <= |v.edges| <= |u.edges|
    requires u.edges[..|v.edges|] == v.edges && u.objects[..|v.objects|] == v.objects
    ensures TrailPath(g, u, n) == TrailPath(g, v, n)
  {
    if n > 0 {
      TrailPathPrefix(g, u, v, n - 1);
      assert u.edges[n - 1] == u.edges[..|v.edges|][n - 1] && u.objects[n - 1] == u.objects[..|v.objects|][n - 1];
    }
  }

  lemma ExtendWalkable(g: Graph, t: Trail, left: nat, k: nat)
    requires Walkable(g, t) && k < |EdgesOf(g, Last(t.objects))|
    requires EdgeResolved(g, t, left, EdgesOf(g, Last(t.objects))[k])
    ensures var u := Extend(t, EdgesOf(g, Last(t.objects))[k].targets[0], k);
            Walked(g, u) && TrailPath(g, u, |t.edges|) == TrailPath(g, t, |t.edges|)
  {
    var u := Extend(t, EdgesOf(g, Last(t.objects))[k].targets[0], k);
    ResolvedStep(g, t, left, k);
    assert u.edges[..|t.edges|] == t.edges && u.objects[..|t.objects|] == t.objects;
    forall i | 0 <= i < |u.edges| ensures StepOk(g, u, i) {
      if i < |t.edges| { SameStep(g, u, t, i); }
    }
    TrailPathPrefix(g, u, t, |t.edges|);
  }

  lemma ResolvedRow(g: Graph, e: Edge, visited: seq<string>, prefix: string, depth: nat, left: nat)
    requires |visited| > 0 && !Skipped(g, e) && StatusOf(g, e, visited, left) == Resolved
    ensures e.name != "" && |e.targets| == 1
    ensures RowFor(g, e, visited, prefix, depth, left) ==
            EdgeRow(Last(visited), e.name, PathTo(prefix, e.name), depth, Some(e.targets[0]), e.referenceTo,
                    g.direction, Resolved)
  {
    ResolvedIff(g, e, visited, left);
  }

  /** The row appended for a resolved edge is the row of the walk extended by it. */
  lemma ExtendedRow(g: Graph, t: Trail, left: nat, k: nat)
    requires Walkable(g, t) && k < |EdgesOf(g, Last(t.objects))|
    requires EdgeResolved(g, t, left, EdgesOf(g, Last(t.objects))[k])
    ensures var e := EdgesOf(g, Last(t.objects))[k];
            var u := Extend(t, e.targets[0], k);
            && Walked(g, u) && TrailPath(g, u, |u.edges|) == TrailRow(g, u).path
            && TrailRow(g, u) == RowFor(g, e, t.objects, TrailPath(g, t, |t.edges|), |t.edges| + 1, left)
  {
    var e := EdgesOf(g, Last(t.objects))[k];
    var u := Extend(t, e.targets[0], k);
    ExtendWalkable(g, t, left, k);
    ResolvedRow(g, e, t.objects, TrailPath(g, t, |t.edges|), |t.edges| + 1, left);
    ExtendedTrailRow(g, t, e.targets[0], k);
  }

  lemma ExtendedTrailRow(g: Graph, t: Trail, target: string, k: nat)
    requires Walkable(g, t) && k < |EdgesOf(g, Last(t.objects))| && Walked(g, Extend(t, target, k))
    requires TrailPath(g, Extend(t, target, k), |t.edges|) == TrailPath(g, t, |t.edges|)
    ensures var e, u := EdgesOf(g, Last(t.objects))[k], Extend(t, target, k);
            && TrailPath(g, u, |u.edges|) == TrailRow(g, u).path
            && TrailRow(g, u) ==
               EdgeRow(Last(t.objects), e.name, PathTo(TrailPath(g, t, |t.edges|), e.name), |t.edges| + 1, Some(target),
                       e.referenceTo, g.direction, Resolved)
  {
    LastEdge(g, t, target, k);
    LastName(g, Extend(t, target, k));
  }

  lemma LastEdge(g: Graph, t: Trail, target: string, k: nat)
    requires Shaped(t) && k < |EdgesOf(g, Last(t.objects))|
    ensures var u, n := Extend(t, target, k), |t.edges|;
            && Shaped(u) && u.objects[n] == Last(t.objects) && u.objects[n + 1] == target && u.edges[n] == k
            && EdgeAt(g, u, n) == EdgesOf(g, Last(t.objects))[k]
  {
  }

  lemma LastName(g: Graph, u: Trail)
    requires Walked(g, u)
    ensures StepOk(g, u, |u.edges| - 1)
    ensures TrailPath(g, u, |u.edges|) ==
            PathTo(TrailPath(g, u, |u.edges| - 1), EdgeAt(g, u, |u.edges| - 1).name)
  {
    assert StepOk(g, u, |u.edges| - 1);
  }

  predicate AllWalked(g: Graph, ts: seq<Trail>) {
    forall i | 0 <= i < |ts| :: Walked(g, ts[i])
  }

  /** The resolved ones among the rows are the rows of the walks, in order. */
  predicate RowsMatch(g: Graph, rows: seq<EdgeRow>, ts: seq<Trail>) {
    AllWalked(g, ts) && ResolvedRows(rows) == TrailRows(g, ts)
  }

  lemma MatchAppend(g: Graph, rows: seq<EdgeRow>, ts: seq<Trail>, more: seq<EdgeRow>, us: seq<Trail>)
    requires RowsMatch(g, rows, ts) && RowsMatch(g, more, us)
    ensures RowsMatch(g, rows + more, ts + us)
  {
    ResolvedAppend(rows, more);
    assert TrailRows(g, ts + us) == TrailRows(g, ts) + TrailRows(g, us);
  }

  lemma MatchOne(g: Graph, row: EdgeRow, t: Trail)
    requires Walked(g, t) && TrailRow(g, t) == row && row.status == Resolved
    ensures RowsMatch(g, [row], [t])
  {
    assert [row][1..] == [];
    assert TrailRows(g, [t]) == [row];
  }

  lemma MatchNone(g: Graph, row: EdgeRow)
    requires row.status != Resolved
    ensures RowsMatch(g, [row], [])
  {
    assert [row][1..] == [];
  }

  /** Edge k's resolved rows are the rows of the walks through edge k. */
  lemma {:induction false} EdgeRowsAreTrails(g: Graph, t: Trail, left: nat, k: nat)
    requires Walkable(g, t) && k < |EdgesOf(g, Last(t.objects))|
    ensures RowsMatch(g, EdgeRows(g, t.objects, TrailPath(g, t, |t.edges|), |t.edges| + 1, left,
                                  EdgesOf(g, Last(t.objects))[k]),
                      EdgeTrails(g, t, left, k))
    decreases left, 0
  {
    var e := EdgesOf(g, Last(t.objects))[k];
    var row := RowFor(g, e, t.objects, TrailPath(g, t, |t.edges|), |t.edges| + 1, left);
    if Skipped(g, e) {
    } else if !EdgeResolved(g, t, left, e) {
      MatchNone(g, row);
    } else {
      var u := Extend(t, e.targets[0], k);
      ExtendedRow(g, t, left, k);
      MatchOne(g, row, u);
      if left > 0 {
        RowsAreTrails(g, u, left - 1, 0);
        MatchAppend(g, [row], [u], RowsFrom(g, u.objects, row.path, |u.edges| + 1, left - 1, 0),
                    TrailsFrom(g, u, left - 1, 0));
      }
    }
  }

  /** The resolved rows, in order, are the rows of the walks, in order. */
  lemma {:induction false} RowsAreTrails(g: Graph, t: Trail, left: nat, k: nat)
    requires Walkable(g, t)
    ensures RowsMatch(g, RowsFrom(g, t.objects, TrailPath(g, t, |t.edges|), |t.edges| + 1, left, k),
                      TrailsFrom(g, t, left, k))
    decreases left, |EdgesOf(g, Last(t.objects))| - k + 1
  {
    var edges := EdgesOf(g, Last(t.objects));
    if k < |edges| {
      var prefix, depth := TrailPath(g, t, |t.edges|), |t.edges| + 1;
      EdgeRowsAreTrails(g, t, left, k);
      RowsAreTrails(g, t, left, k + 1);
      MatchAppend(g, EdgeRows(g, t.objects, prefix, depth, left, edges[k]), EdgeTrails(g, t, left, k),
                  RowsFrom(g, t.objects, prefix, depth, left, k + 1), TrailsFrom(g, t, left, k + 1));
    }
  }

  // ----- Main result ---------------------------------------------------------

  /** All rows of the graph for one root. */
  function GraphRows(g: Graph, root: string, maxDepth: nat): seq<EdgeRow>
    requires maxDepth >= 1
  {
    RowsFrom(g, [root], "", 1, maxDepth - 1, 0)
  }

  /** The walks from the root alone, in traversal order. */
  function Walks(g: Graph, root: string, maxDepth: nat): seq<Trail>
    requires maxDepth >= 1
  {
    TrailsFrom(g, Trail([root], []), maxDepth - 1, 0)
  }

  /**
   The walks behind the resolved rows: in traversal order, each exactly once, and precisely
   the simple walks of length at most maxDepth; the i-th resolved row is the i-th walk's row.
   */
  lemma GraphIsSoundAndComplete(g: Graph, root: string, maxDepth: nat) returns (walks: seq<Trail>)
    requires maxDepth >= 1
    ensures forall t :: t in walks <==> SimpleWalk(g, root, maxDepth, t)
    ensures NoDuplicates(walks)
    ensures RowsMatch(g, GraphRows(g, root, maxDepth), walks)
  {
    walks := Walks(g, root, maxDepth);
    RootRowsMatch(g, root, maxDepth);
    TrailsAreDistinct(g, Trail([root], []), maxDepth - 1, 0);
    forall t ensures t in walks <==> SimpleWalk(g, root, maxDepth, t) { ListedIffSimple(g, root, maxDepth, t); }
  }

  lemma RootRowsMatch(g: Graph, root: string, maxDepth: nat)
    requires maxDepth >= 1
    ensures RowsMatch(g, GraphRows(g, root, maxDepth), Walks(g, root, maxDepth))
  {
    RowsAreTrails(g, Trail([root], []), maxDepth - 1, 0);
  }

  lemma ListedIffSimple(g: Graph, root: string, maxDepth: nat, t: Trail)
    requires maxDepth >= 1
    ensures t in Walks(g, root, maxDepth) <==> SimpleWalk(g, root, maxDepth, t)
  {
    TrailsAreContinuations(g, Trail([root], []), maxDepth - 1, 0, t);
    StartContinues(g, root, maxDepth, t);
  }

  /** The simple walks are the continuations of the root alone. */
  lemma StartContinues(g: Graph, root: string, maxDepth: nat, t: Trail)
    requires maxDepth >= 1
    ensures Continues(g, Trail([root], []), maxDepth - 1, t) <==> SimpleWalk(g, root, maxDepth, t)
  {
    if Shaped(t) {
      assert t.edges[..0] == [];
      assert t.objects[..1] == [t.objects[0]];
    }
  }

  /** No object repeats along a simple walk, not even under another spelling of its case. */
  lemma SimpleWalksDoNotRepeat(g: Graph, root: string, maxDepth: nat, t: Trail, i: nat, j: nat)
    requires SimpleWalk(g, root, maxDepth, t) && i < j <= |t.edges|
    ensures !CIEquals(t.objects[i], t.objects[j])
  {
    assert StepOk(g, t, j - 1);
    assert t.objects[..j][i] == t.objects[i];
  }

  // ----- Every row ---------------------------------------------------------------

  /** An edge met from the last object of a walk. */
  datatype Visit = Visit(trail: Trail, edge: nat)

  predicate VisitOk(g: Graph, v: Visit) {
    && |v.trail.objects| > 0 && v.edge < |EdgesOf(g, Last(v.trail.objects))|
    && !Skipped(g, EdgesOf(g, Last(v.trail.objects))[v.edge])
  }

  function EdgeVisits(g: Graph, t: Trail, left: nat, k: nat): seq<Visit>
    requires |t.objects| > 0 && k < |EdgesOf(g, Last(t.objects))|
    decreases left, 0
  {
    var e := EdgesOf(g, Last(t.objects))[k];
    if Skipped(g, e) then []
    else if EdgeResolved(g, t, left, e) && left > 0 then
      [Visit(t, k)] + VisitsFrom(g, Extend(t, e.targets[0], k), left - 1, 0)
    else [Visit(t, k)]
  }

  function VisitsFrom(g: Graph, t: Trail, left: nat, k: nat): seq<Visit>
    requires |t.objects| > 0
    decreases left, |EdgesOf(g, Last(t.objects))| - k + 1
  {
    if k >= |EdgesOf(g, Last(t.objects))| then []
    else EdgeVisits(g, t, left, k) + VisitsFrom(g, t, left, k + 1)
  }

  /** The walk goes on from u: u is t itself, or continues it without using up the depth. */
  predicate GoesOnFrom(g: Graph, t: Trail, left: nat, u: Trail, first: nat) {
    Continues(g, t, left, u) && |u.edges| <= |t.edges| + left && u.edges[|t.edges|] == first
  }

  lemma {:induction false} EdgeVisitsAre(g: Graph, t: Trail, left: nat, k: nat, v: Visit)
    requires Shaped(t) && k < |EdgesOf(g, Last(t.objects))|
    ensures v in EdgeVisits(g, t, left, k) <==>
            VisitOk(g, v) && (v == Visit(t, k) || GoesOnFrom(g, t, left, v.trail, k))
    decreases left, 0
  {
    var e := EdgesOf(g, Last(t.objects))[k];
    if Continues(g, t, left, v.trail) {
      if left > 0 { FirstTargetDescribable(g, t, left, v.trail); }
      StepIsResolved(g, t, left, v.trail);
    }
    if EdgeResolved(g, t, left, e) {
      ContinuesThrough(g, t, left, k, v.trail);
      if left > 0 {
        var u := Extend(t, e.targets[0], k);
        VisitsAre(g, u, left - 1, 0, v);
        assert v in EdgeVisits(g, t, left, k) <==> v == Visit(t, k) || v in VisitsFrom(g, u, left - 1, 0);
      }
    }
  }

  /** The edges met are those of the walks that go on, no more and no fewer. */
  lemma {:induction false} VisitsAre(g: Graph, t: Trail, left: nat, k: nat, v: Visit)
    requires Shaped(t)
    ensures v in VisitsFrom(g, t, left, k) <==>
            && VisitOk(g, v)
            && ((v.trail == t && v.edge >= k) ||
                (&& Continues(g, t, left, v.trail) && |v.trail.edges| <= |t.edges| + left
                 && v.trail.edges[|t.edges|] >= k))
    decreases left, |EdgesOf(g, Last(t.objects))| - k + 1
  {
    if k < |EdgesOf(g, Last(t.objects))| {
      EdgeVisitsAre(g, t, left, k, v);
      VisitsAre(g, t, left, k + 1, v);
    } else if Continues(g, t, left, v.trail) {
      if left > 0 { FirstTargetDescribable(g, t, left, v.trail); }
      StepIsResolved(g, t, left, v.trail);
    }
  }

  lemma {:induction false} EdgeVisitsDistinct(g: Graph, t: Trail, left: nat, k: nat)
    requires Shaped(t) && k < |EdgesOf(g, Last(t.objects))|
    ensures NoDuplicates(EdgeVisits(g, t, left, k))
    decreases left, 0
  {
    var e := EdgesOf(g, Last(t.objects))[k];
    if !Skipped(g, e) && EdgeResolved(g, t, left, e) && left > 0 {
      var u := Extend(t, e.targets[0], k);
      VisitsDistinct(g, u, left - 1, 0);
      VisitsAre(g, u, left - 1, 0, Visit(t, k));
      NoDuplicatesAppend([Visit(t, k)], VisitsFrom(g, u, left - 1, 0));
    }
  }

  /** Each edge of each walk is met once. */
  lemma {:induction false} VisitsDistinct(g: Graph, t: Trail, left: nat, k: nat)
    requires Shaped(t)
    ensures NoDuplicates(VisitsFrom(g, t, left, k))
    decreases left, |EdgesOf(g, Last(t.objects))| - k + 1
  {
    if k < |EdgesOf(g, Last(t.objects))| {
      var here, rest := EdgeVisits(g, t, left, k), VisitsFrom(g, t, left, k + 1);
      EdgeVisitsDistinct(g, t, left, k);
      VisitsDistinct(g, t, left, k + 1);
      forall v | v in here ensures v !in rest {
        EdgeVisitsAre(g, t, left, k, v);
        VisitsAre(g, t, left, k + 1, v);
      }
      NoDuplicatesAppend(here, rest);
    }
  }

  /** The row of an edge met from a walk, in a traversal to maxDepth. */
  function VisitRow(g: Graph, maxDepth: nat, v: Visit): EdgeRow
    requires VisitOk(g, v) && Walkable(g, v.trail) && |v.trail.edges| < maxDepth
  {
    var n := |v.trail.edges|;
    var e := EdgesOf(g, Last(v.trail.objects))[v.edge];
    RowFor(g, e, v.trail.objects, TrailPath(g, v.trail, n), n + 1, maxDepth - n - 1)
  }

  predicate IsRowOf(g: Graph, maxDepth: nat, row: EdgeRow, v: Visit) {
    && VisitOk(g, v) && Walkable(g, v.trail) && |v.trail.edges| < maxDepth
    && row == VisitRow(g, maxDepth, v)
  }

  /** Element by element, the two lists stand in the relation. */
  predicate Pairwise<A, B>(related: (A, B) -> bool, a: seq<A>, b: seq<B>) {
    |a| == |b| && forall i | 0 <= i < |a| :: related(a[i], b[i])
  }

  lemma PairwiseAppend<A, B>(related: (A, B) -> bool, a: seq<A>, b: seq<B>, c: seq<A>, d: seq<B>)
    requires Pairwise(related, a, b) && Pairwise(related, c, d)
    ensures Pairwise(related, a + c, b + d)
  {
  }

  function RowTest(g: Graph, maxDepth: nat): (EdgeRow, Visit) -> bool {
    (row, v) => IsRowOf(g, maxDepth, row, v)
  }

  /** The rows are those of the visits, in order. */
  predicate RowsOf(g: Graph, maxDepth: nat, rows: seq<EdgeRow>, vs: seq<Visit>) {
    Pairwise(RowTest(g, maxDepth), rows, vs)
  }

  lemma OneRow(g: Graph, maxDepth: nat, row: EdgeRow, v: Visit)
    requires IsRowOf(g, maxDepth, row, v)
    ensures RowsOf(g, maxDepth, [row], [v])
  {
    assert RowTest(g, maxDepth)(row, v);
  }

  lemma {:induction false} EdgeRowsAreVisits(g: Graph, maxDepth: nat, t: Trail, left: nat, k: nat)
    requires Walkable(g, t) && k < |EdgesOf(g, Last(t.objects))| && maxDepth == |t.edges| + left + 1
    ensures RowsOf(g, maxDepth, EdgeRows(g, t.objects, TrailPath(g, t, |t.edges|), |t.edges| + 1, left,
                                         EdgesOf(g, Last(t.objects))[k]),
                   EdgeVisits(g, t, left, k))
    decreases left, 0
  {
    var e := EdgesOf(g, Last(t.objects))[k];
    if !Skipped(g, e) {
      var row := RowFor(g, e, t.objects, TrailPath(g, t, |t.edges|), |t.edges| + 1, left);
      OneRow(g, maxDepth, row, Visit(t, k));
      if EdgeResolved(g, t, left, e) && left > 0 {
        var u := Extend(t, e.targets[0], k);
        ExtendedRow(g, t, left, k);
        RowsAreVisits(g, maxDepth, u, left - 1, 0);
        PairwiseAppend(RowTest(g, maxDepth), [row], [Visit(t, k)],
                       RowsFrom(g, u.objects, row.path, |u.edges| + 1, left - 1, 0), VisitsFrom(g, u, left - 1, 0));
      }
    }
  }

  lemma {:induction false} RowsAreVisits(g: Graph, maxDepth: nat, t: Trail, left: nat, k: nat)
    requires Walkable(g, t) && maxDepth == |t.edges| + left + 1
    ensures RowsOf(g, maxDepth, RowsFrom(g, t.objects, TrailPath(g, t, |t.edges|), |t.edges| + 1, left, k),
                   VisitsFrom(g, t, left, k))
    decreases left, |EdgesOf(g, Last(t.objects))| - k + 1
  {
    var edges := EdgesOf(g, Last(t.objects));
    if k < |edges| {
      var prefix, depth := TrailPath(g, t, |t.edges|), |t.edges| + 1;
      EdgeRowsAreVisits(g, maxDepth, t, left, k);
      RowsAreVisits(g, maxDepth, t, left, k + 1);
      PairwiseAppend(RowTest(g, maxDepth),
                     EdgeRows(g, t.objects, prefix, depth, left, edges[k]), EdgeVisits(g, t, left, k),
                     RowsFrom(g, t.objects, prefix, depth, left, k + 1), VisitsFrom(g, t, left, k + 1));
    }
  }

  /** The walk reaches the end of t and looks at its edges: t is the root alone, or a simple walk short of maxDepth. */
  predicate Reached(g: Graph, root: string, maxDepth: nat, t: Trail) {
    t == Trail([root], []) || (SimpleWalk(g, root, maxDepth, t) && |t.edges| < maxDepth)
  }

  predicate IsEdgeReached(g: Graph, root: string, maxDepth: nat, v: Visit) {
    VisitOk(g, v) && Reached(g, root, maxDepth, v.trail)
  }

  /** The visits are the edges of the objects reached, fields without a relationship name left out. */
  ghost predicate ExactlyTheEdges(g: Graph, root: string, maxDepth: nat, visits: seq<Visit>) {
    forall v :: v in visits <==> IsEdgeReached(g, root, maxDepth, v)
  }

  function Visits(g: Graph, root: string, maxDepth: nat): seq<Visit>
    requires maxDepth >= 1
  {
    VisitsFrom(g, Trail([root], []), maxDepth - 1, 0)
  }

  /**
   All rows, resolved or not, in order: one for each edge of each object reached, except fields
   without a relationship name.
   */
  lemma EveryEdgeHasItsRow(g: Graph, root: string, maxDepth: nat)
    requires maxDepth >= 1
    ensures RowsOf(g, maxDepth, GraphRows(g, root, maxDepth), Visits(g, root, maxDepth))
  {
    RowsAreVisits(g, maxDepth, Trail([root], []), maxDepth - 1, 0);
  }

  lemma EdgesVisitedOnce(g: Graph, root: string, maxDepth: nat)
    requires maxDepth >= 1
    ensures NoDuplicates(Visits(g, root, maxDepth))
  {
    VisitsDistinct(g, Trail([root], []), maxDepth - 1, 0);
  }

  lemma AllEdgesVisited(g: Graph, root: string, maxDepth: nat)
    requires maxDepth >= 1
    ensures ExactlyTheEdges(g, root, maxDepth, Visits(g, root, maxDepth))
  {
    var visits := Visits(g, root, maxDepth);
    forall v ensures v in visits <==> IsEdgeReached(g, root, maxDepth, v) {
      VisitedIffReached(g, root, maxDepth, v);
    }
  }

  lemma VisitedIffReached(g: Graph, root: string, maxDepth: nat, v: Visit)
    requires maxDepth >= 1
    ensures v in Visits(g, root, maxDepth) <==> IsEdgeReached(g, root, maxDepth, v)
  {
    VisitsAre(g, Trail([root], []), maxDepth - 1, 0, v);
    StartContinues(g, root, maxDepth, v.trail);
  }

  /** What the row of a reference field says: the first guard that holds decides its status. */
  lemma ParentRowSays(g: Graph, e: Edge, visited: seq<string>, prefix: string, depth: nat, left: nat)
    requires g.direction == ToParents && |visited| > 0 && e.name != ""
    ensures var row := RowFor(g, e, visited, prefix, depth, left);
            && row.source == visited[|visited| - 1] && row.relationshipName == e.name && row.depthLevel == depth
            && row.referenceTo == e.referenceTo && row.direction == ToParents
            && row.path == (if prefix == "" then e.name else prefix + "." + e.name)
            && (row.status == Polymorphic <==> |e.targets| != 1)
            && (|e.targets| == 1 ==>
                  var target := e.targets[0];
                  && (row.status == SelfReference <==> CIEquals(target, visited[|visited| - 1]))
                  && (row.status == Cyclic <==> OnPath(visited, target) && !CIEquals(target, visited[|visited| - 1]))
                  && (row.status == NotQueryable <==> !OnPath(visited, target) && !Queryable(g, target))
                  && (row.status == NotDescribable <==>
                        !OnPath(visited, target) && Queryable(g, target) && left > 0 && !Describable(g, target))
                  && row.target == (if row.status == NotQueryable then None else Some(target)))
            && (|e.targets| != 1 ==> row.target == None) && row.status != UnnamedChild
  {
    assert visited[|visited| - 1] == Last(visited);
  }

  /** What the row of a child relationship says: unnamed, not queryable, cyclic, not describable, in this order. */
  lemma ChildRowSays(g: Graph, e: Edge, visited: seq<string>, prefix: string, depth: nat, left: nat)
    requires g.direction == ToChildren && |visited| > 0 && |e.targets| == 1
    ensures var row, child := RowFor(g, e, visited, prefix, depth, left), e.targets[0];
            var name := if e.name == "" then "child:" + child else e.name;
            && row.source == visited[|visited| - 1] && row.relationshipName == e.name && row.depthLevel == depth
            && row.referenceTo == e.referenceTo && row.direction == ToChildren && row.target == Some(child)
            && row.path == (if prefix == "" then name else prefix + "." + name)
            && (row.status == UnnamedChild <==> e.name == "")
            && (row.status == NotQueryable <==> e.name != "" && !Queryable(g, child))
            && (row.status == Cyclic <==> e.name != "" && Queryable(g, child) && OnPath(visited, child))
            && (row.status == NotDescribable <==>
                  && e.name != "" && Queryable(g, child) && !OnPath(visited, child)
                  && left > 0 && !Describable(g, child))
            && row.status != Polymorphic && row.status != SelfReference
  {
  }

  /** The edges of an object: its reference fields and their targets, or its child relationships and their objects. */
  lemma EdgesAre(g: Graph, o: string, k: nat)
    requires Describable(g, o) && k < |EdgesOf(g, o)|
    ensures var desc, e := g.describes[Lower(o)], EdgesOf(g, o)[k];
            && (g.direction == ToParents ==>
                  && |EdgesOf(g, o)| == |desc.fields| && e.name == desc.fields[k].relationshipName
                  && e.targets == desc.fields[k].referenceTo && e.referenceTo == desc.fields[k].referenceTo)
            && (g.direction == ToChildren ==>
                  && |EdgesOf(g, o)| == |desc.childRelationships|
                  && e.name == desc.childRelationships[k].relationshipName
                  && e.targets == [desc.childRelationships[k].childObject]
                  && e.referenceTo == (if desc.childRelationships[k].field == "" then []
                                       else [desc.childRelationships[k].field]))
  {
  }

  // ----- Both directions ------------------------------------------------------

  datatype Bound = BindError | Rows(rows: seq<EdgeRow>)

  const DEPTH_CAP: int := 4

  function WantedRows(wanted: bool, g: Graph, root: string, maxDepth: nat): seq<EdgeRow>
    requires maxDepth >= 1
  {
    if wanted then GraphRows(g, root, maxDepth) else []
  }

  /** What salesforce_relationship_graph answers for the directions wanted. */
  function BoundRows(describes: map<string, ObjectDescribe>, queryable: seq<string>, root: string, maxDepth: int,
                     wantParent: bool, wantChild: bool): Bound {
    if maxDepth < 1 || Lower(root) !in describes then BindError
    else
      var depth := if maxDepth > DEPTH_CAP then DEPTH_CAP else maxDepth;
      Rows(WantedRows(wantParent, Graph(describes, queryable, ToParents), root, depth) +
           WantedRows(wantChild, Graph(describes, queryable, ToChildren), root, depth))
  }

  /** RelGraphBind: the parent walk first, then the child walk from a fresh stack into the same rows. */
  method RelGraphBind(describes: map<string, ObjectDescribe>, queryable: seq<string>, root: string, maxDepth: int,
                      wantParent: bool, wantChild: bool) returns (r: Bound)
    ensures r == BoundRows(describes, queryable, root, maxDepth, wantParent, wantChild)
  {
    if maxDepth < 1 || Lower(root) !in describes {
      return BindError;
    }
    var depth := if maxDepth > DEPTH_CAP then DEPTH_CAP else maxDepth;
    var rows: seq<EdgeRow> := [];
    var up, down := Graph(describes, queryable, ToParents), Graph(describes, queryable, ToChildren);
    if wantParent {
      rows := WalkRoot(up, root, depth, rows);
    }
    assert rows == WantedRows(wantParent, up, root, depth);
    if wantChild {
      rows := WalkRoot(down, root, depth, rows);
    }
    assert rows == WantedRows(wantParent, up, root, depth) + WantedRows(wantChild, down, root, depth);
    return Rows(rows);
  }

  method WalkRoot(g: Graph, root: string, depth: nat, rows: seq<EdgeRow>) returns (all: seq<EdgeRow>)
    requires depth >= 1
    ensures all == rows + GraphRows(g, root, depth)
  {
    var walk := new GraphWalk(g, root, rows);
    if g.direction == ToParents {
      walk.RelGraphWalk(root, "", 1, depth);
    } else {
      walk.RelGraphChildWalk(root, "", 1, depth);
    }
    return walk.rows;
  }

  /** Every row of a walk has the walk's direction. */
  lemma RowsHaveDirection(g: Graph, root: string, maxDepth: nat)
    requires maxDepth >= 1
    ensures forall row :: row in GraphRows(g, root, maxDepth) ==> row.direction == g.direction
  {
    EveryEdgeHasItsRow(g, root, maxDepth);
    var rows, visits := GraphRows(g, root, maxDepth), Visits(g, root, maxDepth);
    forall row | row in rows ensures row.direction == g.direction {
      var i :| 0 <= i < |rows| && rows[i] == row;
      assert RowTest(g, maxDepth)(rows[i], visits[i]);
    }
  }

  /** The walks wanted: all simple walks of the graph, or none. */
  ghost predicate WalksWanted(wanted: bool, g: Graph, root: string, maxDepth: nat, walks: seq<Trail>) {
    && NoDuplicates(walks) && AllWalked(g, walks)
    && forall t :: t in walks <==> wanted && SimpleWalk(g, root, maxDepth, t)
  }

  lemma WantedWalks(wanted: bool, g: Graph, root: string, maxDepth: nat) returns (walks: seq<Trail>)
    requires maxDepth >= 1
    ensures WalksWanted(wanted, g, root, maxDepth, walks)
    ensures ResolvedRows(WantedRows(wanted, g, root, maxDepth)) == TrailRows(g, walks)
    ensures forall row :: row in WantedRows(wanted, g, root, maxDepth) ==> wanted && row.direction == g.direction
  {
    if wanted {
      walks := GraphIsSoundAndComplete(g, root, maxDepth);
      RowsHaveDirection(g, root, maxDepth);
    } else {
      walks := [];
    }
  }

  /**
   For each choice of directions and any depth from one on, counting as four when it is more: the
   resolved rows are the simple walks up if parents are wanted, then the simple walks down if
   children are wanted, and every row has a wanted direction.
   */
  lemma DirectionsWanted(describes: map<string, ObjectDescribe>, queryable: seq<string>, root: string, maxDepth: int,
                         wantParent: bool, wantChild: bool) returns (up: seq<Trail>, down: seq<Trail>)
    requires maxDepth >= 1 && Lower(root) in describes
    ensures var parents, children := Graph(describes, queryable, ToParents), Graph(describes, queryable, ToChildren);
            var depth := if maxDepth <= 4 then maxDepth else 4;
            var r := BoundRows(describes, queryable, root, maxDepth, wantParent, wantChild);
            && WalksWanted(wantParent, parents, root, depth, up) && WalksWanted(wantChild, children, root, depth, down)
            && r.Rows? && ResolvedRows(r.rows) == TrailRows(parents, up) + TrailRows(children, down)
            && forall row :: row in r.rows ==> if row.direction == ToParents then wantParent else wantChild
  {
    var parents, children := Graph(describes, queryable, ToParents), Graph(describes, queryable, ToChildren);
    var depth := if maxDepth <= 4 then maxDepth else 4;
    up := WantedWalks(wantParent, parents, root, depth);
    down := WantedWalks(wantChild, children, root, depth);
    ResolvedAppend(WantedRows(wantParent, parents, root, depth), WantedRows(wantChild, children, root, depth));
  }

  /** Depths beyond four answer as four does; no depth below one and no unknown root is accepted. */
  lemma DepthIsCapped(describes: map<string, ObjectDescribe>, queryable: seq<string>, root: string, maxDepth: int,
                      wantParent: bool, wantChild: bool)
    ensures maxDepth > 4 ==> BoundRows(describes, queryable, root, maxDepth, wantParent, wantChild) ==
                             BoundRows(describes, queryable, root, 4, wantParent, wantChild)
    ensures BoundRows(describes, queryable, root, maxDepth, wantParent, wantChild).BindError? <==>
            maxDepth < 1 || Lower(root) !in describes
  {
  }
}
