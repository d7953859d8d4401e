/**
 The SELECT list of a scan and the decoding of its CSV rows. Relationship columns are
 asked for as dotted paths and decoded back into nested STRUCT values; the two sides agree
 whatever order, and whatever letter case, the result header comes in.
 */
module BulkDecode {
  import opened Text
  import opened Describe

  // ----- SELECT paths ---------------------------------------------------------

  function Dotted(path: string, name: string): string {
    path + "." + name
  }

  /** The dotted paths of everything below a relationship field. */
  function Emit(f: Field, path: string): seq<string>
    decreases f, 1
  {
    EmitChildren(f.children, path)
  }

  function EmitChildren(children: seq<Field>, path: string): seq<string>
    decreases children, 0
  {
    if |children| == 0 then []
    else
      (if children[0].isRelationship then Emit(children[0], Dotted(path, children[0].name))
       else [Dotted(path, children[0].name)]) +
      EmitChildren(children[1..], path)
  }

  /** EmitRelationshipSoql appends to the select list it is given. */
  method EmitRelationshipSoql(rel: Field, path: string, before: seq<string>) returns (out: seq<string>)
    ensures out == before + Emit(rel, path)
    decreases rel
  {
    out := before;
    for i := 0 to |rel.children|
      invariant out + EmitChildren(rel.children[i..], path) == before + Emit(rel, path)
    {
      var child := rel.children[i];
      assert rel.children[i..][1..] == rel.children[i + 1..];
      ghost var inner := Dotted(path, child.name);
      ghost var here := if child.isRelationship then Emit(child, inner) else [inner];
      Assoc(out, here, EmitChildren(rel.children[i + 1..], path));
      if child.isRelationship {
        out := EmitRelationshipSoql(child, Dotted(path, child.name), out);
      } else {
        out := out + [Dotted(path, child.name)];
      }
    }
    assert rel.children[|rel.children|..] == [];
  }

  /** What one projected column contributes to the SELECT list. */
  function SelectPaths(fields: seq<Field>, column: nat): seq<string> {
    if column >= |fields| then []
    else if fields[column].isRelationship then Emit(fields[column], fields[column].relationshipName)
    else [fields[column].name]
  }

  function SelectedPaths(fields: seq<Field>, columnIds: seq<nat>): seq<string> {
    if |columnIds| == 0 then [] else SelectPaths(fields, columnIds[0]) + SelectedPaths(fields, columnIds[1..])
  }

  /** The SELECT list; the first field stands in when nothing is projected. */
  function SelectList(fields: seq<Field>, columnIds: seq<nat>): seq<string> {
    var paths := SelectedPaths(fields, columnIds);
    if paths == [] && fields != [] then [fields[0].name] else paths
  }

  /** The projection loop of ScanInitGlobal. */
  method BuildSelectList(fields: seq<Field>, columnIds: seq<nat>) returns (paths: seq<string>)
    ensures paths == SelectList(fields, columnIds)
  {
    paths := [];
    for j := 0 to |columnIds|
      invariant paths + SelectedPaths(fields, columnIds[j..]) == SelectedPaths(fields, columnIds)
    {
      var col := columnIds[j];
      assert columnIds[j..][1..] == columnIds[j + 1..];
      Assoc(paths, SelectPaths(fields, col), SelectedPaths(fields, columnIds[j + 1..]));
      if col < |fields| {
        if fields[col].isRelationship {
          paths := EmitRelationshipSoql(fields[col], fields[col].relationshipName, paths);
        } else {
          paths := paths + [fields[col].name];
        }
      }
    }
    assert columnIds[|columnIds|..] == [];
    if paths == [] && fields != [] {
      paths := [fields[0].name];
    }
  }

  // ----- Decoding -------------------------------------------------------------

  datatype Decoded = NullValue | CellValue(text: string) | StructValue(children: seq<Decoded>)

  /** The first column whose header matches, whatever its case. */
  function FindColumn(columns: seq<string>, header: string): (r: Option<nat>)
    ensures r.Some? ==> r.value < |columns| && CIEquals(columns[r.value], header)
    ensures r.None? ==> forall k | 0 <= k < |columns| :: !CIEquals(columns[k], header)
  {
    if |columns| == 0 then None
    else if CIEquals(columns[0], header) then Some(0)
    else
      match FindColumn(columns[1..], header)
      case None =>
        assert forall k | 1 <= k < |columns| :: columns[k] == columns[1..][k - 1];
        None
      case Some(k) => Some(k + 1)
  }

  method LocateColumn(columns: seq<string>, header: string) returns (ci: int)
    ensures match FindColumn(columns, header)
            case None => ci == -1
            case Some(k) => ci == k
  {
    for k := 0 to |columns|
      invariant FindColumn(columns, header) ==
                match FindColumn(columns[k..], header) case None => None case Some(j) => Some(j + k)
    {
      assert columns[k..][1..] == columns[k + 1..];
      if CIEquals(columns[k], header) {
        return k;
      }
    }
    return -1;
  }

  /** An absent column, a short row and an empty cell all decode to NULL. */
  function DecodeLeaf(header: string, cells: seq<string>, columns: seq<string>): Decoded {
    var ci := FindColumn(columns, header);
    if ci.None? || ci.value >= |cells| || cells[ci.value] == "" then NullValue else CellValue(cells[ci.value])
  }

  predicate AnyValue(ds: seq<Decoded>) {
    exists i | 0 <= i < |ds| :: ds[i] != NullValue
  }

  /** AppendBulkStruct: a STRUCT none of whose members has a value is NULL. */
  function DecodeStruct(f: Field, path: string, cells: seq<string>, columns: seq<string>): Decoded
    decreases f, 1
  {
    var ds := DecodeChildren(f.children, path, cells, columns);
    if AnyValue(ds) then StructValue(ds) else NullValue
  }

  function DecodeChildren(children: seq<Field>, path: string, cells: seq<string>,
                          columns: seq<string>): (ds: seq<Decoded>)
    ensures |ds| == |children|
    decreases children, 0
  {
    if |children| == 0 then []
    else
      [if children[0].isRelationship then DecodeStruct(children[0], Dotted(path, children[0].name), cells, columns)
       else DecodeLeaf(Dotted(path, children[0].name), cells, columns)] +
      DecodeChildren(children[1..], path, cells, columns)
  }

  /** One output column of one row. */
  function DecodeColumn(fields: seq<Field>, column: nat, cells: seq<string>, columns: seq<string>): Decoded {
    if column >= |fields| then NullValue
    else if fields[column].isRelationship then
      DecodeStruct(fields[column], fields[column].relationshipName, cells, columns)
    else DecodeLeaf(fields[column].name, cells, columns)
  }

  // ----- The record behind the row ---------------------------------------------

  /** A record: the text of each selected path, keyed by the path in lower case. */
  type Record = map<string, string>

  /** The text at the end of a chain of names. */
  function TextAt(r: Record, names: seq<string>): string {
    TextUnder(r, Join(".", names))
  }

  function TextUnder(r: Record, path: string): string {
    if Lower(path) in r then r[Lower(path)] else ""
  }

  /** The chains of names from below a relationship down to each leaf, depth first. */
  function LeafNames(children: seq<Field>): seq<seq<string>>
    decreases children
  {
    if |children| == 0 then []
    else OwnLeafNames(children[0]) + LeafNames(children[1..])
  }

  function OwnLeafNames(child: Field): seq<seq<string>>
    decreases child
  {
    if child.isRelationship then Under([child.name], LeafNames(child.children)) else [[child.name]]
  }

  /** Each chain with the names of what it lies under before it. */
  function Under(names: seq<string>, leaves: seq<seq<string>>): (r: seq<seq<string>>)
    ensures |r| == |leaves| && forall i | 0 <= i < |leaves| :: r[i] == names + leaves[i]
  {
    seq(|leaves|, i requires 0 <= i < |leaves| => names + leaves[i])
  }

  predicate AllEmpty(r: Record, chains: seq<seq<string>>) {
    forall i | 0 <= i < |chains| :: TextAt(r, chains[i]) == ""
  }

  /** The STRUCT reached by `names`, built from the record: NULL exactly when every leaf beneath is empty. */
  function Assemble(f: Field, names: seq<string>, r: Record): Decoded
    decreases f, 1
  {
    if AllEmpty(r, Under(names, LeafNames(f.children))) then NullValue
    else StructValue(AssembleChildren(f.children, names, r))
  }

  function AssembleChildren(children: seq<Field>, names: seq<string>, r: Record): (ds: seq<Decoded>)
    ensures |ds| == |children|
    decreases children, 0
  {
    if |children| == 0 then []
    else
      [if children[0].isRelationship then Assemble(children[0], names + [children[0].name], r)
       else AssembleLeaf(names + [children[0].name], r)] +
      AssembleChildren(children[1..], names, r)
  }

  function AssembleLeaf(names: seq<string>, r: Record): Decoded {
    if TextAt(r, names) == "" then NullValue else CellValue(TextAt(r, names))
  }

  function AssembleColumn(fields: seq<Field>, column: nat, r: Record): Decoded {
    if column >= |fields| then NullValue
    else if fields[column].isRelationship then Assemble(fields[column], [fields[column].relationshipName], r)
    else AssembleLeaf([fields[column].name], r)
  }

  /** The row prints the record under the header: any order, any letter case, extra columns allowed. */
  predicate RowOf(r: Record, columns: seq<string>, cells: seq<string>) {
    |cells| == |columns| && forall k | 0 <= k < |columns| :: cells[k] == TextUnder(r, columns[k])
  }

  /** The header has every path that was asked for. */
  predicate Covers(columns: seq<string>, paths: seq<string>) {
    forall i | 0 <= i < |paths| :: HasColumn(columns, paths[i])
  }

  predicate HasColumn(columns: seq<string>, path: string) {
    exists k | 0 <= k < |columns| :: CIEquals(columns[k], path)
  }

  lemma LeafAgrees(header: string, names: seq<string>, r: Record, columns: seq<string>, cells: seq<string>)
    requires RowOf(r, columns, cells) && HasColumn(columns, header) && header == Join(".", names)
    ensures DecodeLeaf(header, cells, columns) == AssembleLeaf(names, r)
  {
  }

  lemma CoversParts(columns: seq<string>, a: seq<string>, b: seq<string>)
    requires Covers(columns, a + b)
    ensures Covers(columns, a) && Covers(columns, b)
  {
    var c := a + b;
    forall i | 0 <= i < |a| ensures HasColumn(columns, a[i]) { assert c[i] == a[i]; }
    forall i | 0 <= i < |b| ensures HasColumn(columns, b[i]) {
      assert c[|a| + i] == b[i];
    }
  }

  lemma AllEmptyParts(r: Record, a: seq<seq<string>>, b: seq<seq<string>>)
    ensures AllEmpty(r, a + b) <==> AllEmpty(r, a) && AllEmpty(r, b)
  {
    var c := a + b;
    assert forall i | 0 <= i < |a| :: c[i] == a[i];
    assert forall i | 0 <= i < |b| :: c[|a| + i] == b[i];
  }

  lemma AllEmptyOne(r: Record, chain: seq<string>)
    ensures AllEmpty(r, [chain]) <==> TextAt(r, chain) == ""
  {
    assert [chain][0] == chain;
  }

  lemma UnderParts(names: seq<string>, a: seq<seq<string>>, b: seq<seq<string>>)
    ensures Under(names, a + b) == Under(names, a) + Under(names, b)
  {
  }

  lemma UnderTwice(names: seq<string>, more: seq<string>, leaves: seq<seq<string>>)
    ensures Under(names, Under(more, leaves)) == Under(names + more, leaves)
  {
    forall i | 0 <= i < |leaves| ensures Under(names, Under(more, leaves))[i] == Under(names + more, leaves)[i] {
      Assoc(names, more, leaves[i]);
    }
  }

  lemma AnyValueCons(d: Decoded, ds: seq<Decoded>)
    ensures AnyValue([d] + ds) <==> d != NullValue || AnyValue(ds)
  {
    var all := [d] + ds;
    assert all[0] == d && forall i | 0 <= i < |ds| :: all[i + 1] == ds[i];
    if AnyValue(ds) {
      var i :| 0 <= i < |ds| && ds[i] != NullValue;
      assert all[i + 1] != NullValue;
    }
  }

  /** A dotted path is the names along it, joined by dots. */
  lemma DottedIsJoined(path: string, names: seq<string>, name: string)
    requires |names| > 0 && path == Join(".", names)
    ensures Dotted(path, name) == Join(".", names + [name])
  {
    JoinSnoc(".", names, name);
  }

  /** Bottom up: decoding by header search is assembling from the record, at every level. */
  lemma {:induction false} StructAgrees(f: Field, path: string, names: seq<string>, r: Record,
                                        columns: seq<string>, cells: seq<string>)
    requires RowOf(r, columns, cells) && Covers(columns, Emit(f, path)) && |names| > 0 && path == Join(".", names)
    ensures DecodeStruct(f, path, cells, columns) == Assemble(f, names, r)
    ensures DecodeStruct(f, path, cells, columns) == NullValue <==> AllEmpty(r, Under(names, LeafNames(f.children)))
    decreases f, 1
  {
    ChildrenAgree(f.children, path, names, r, columns, cells);
  }

  lemma {:induction false} ChildrenAgree(children: seq<Field>, path: string, names: seq<string>, r: Record,
                                         columns: seq<string>, cells: seq<string>)
    requires RowOf(r, columns, cells) && Covers(columns, EmitChildren(children, path))
    requires |names| > 0 && path == Join(".", names)
    ensures DecodeChildren(children, path, cells, columns) == AssembleChildren(children, names, r)
    ensures AnyValue(DecodeChildren(children, path, cells, columns)) <==>
            !AllEmpty(r, Under(names, LeafNames(children)))
    decreases children, 0
  {
    if |children| > 0 {
      var child, rest := children[0], EmitChildren(children[1..], path);
      var inner := Dotted(path, child.name);
      CoversParts(columns, if child.isRelationship then Emit(child, inner) else [inner], rest);
      ChildrenAgree(children[1..], path, names, r, columns, cells);
      ChildAgrees(child, path, names, r, columns, cells);
      UnderParts(names, OwnLeafNames(child), LeafNames(children[1..]));
      AllEmptyParts(r, Under(names, OwnLeafNames(child)), Under(names, LeafNames(children[1..])));
      AnyValueCons(DecodeChildren(children, path, cells, columns)[0],
                   DecodeChildren(children[1..], path, cells, columns));
    }
  }

  lemma {:induction false} ChildAgrees(child: Field, path: string, names: seq<string>, r: Record,
                                       columns: seq<string>, cells: seq<string>)
    requires RowOf(r, columns, cells) && |names| > 0 && path == Join(".", names)
    requires Covers(columns, if child.isRelationship then Emit(child, Dotted(path, child.name))
                             else [Dotted(path, child.name)])
    ensures var inner := Dotted(path, child.name);
            var d := if child.isRelationship then DecodeStruct(child, inner, cells, columns)
                     else DecodeLeaf(inner, cells, columns);
            && d == (if child.isRelationship then Assemble(child, names + [child.name], r)
                     else AssembleLeaf(names + [child.name], r))
            && (d != NullValue <==> !AllEmpty(r, Under(names, OwnLeafNames(child))))
    decreases child, 2
  {
    var inner := Dotted(path, child.name);
    DottedIsJoined(path, names, child.name);
    if child.isRelationship {
      StructAgrees(child, inner, names + [child.name], r, columns, cells);
      UnderTwice(names, [child.name], LeafNames(child.children));
    } else {
      assert [inner][0] == inner;
      LeafAgrees(inner, names + [child.name], r, columns, cells);
      assert Under(names, [[child.name]]) == [names + [child.name]];
      AllEmptyOne(r, names + [child.name]);
    }
  }

  /**
   For every projected column: whatever the order and letter case of the header, as long as it
   has the paths that were selected, the decoded value is the record's.
   */
  lemma SelectAndDecodeAgree(fields: seq<Field>, column: nat, r: Record, columns: seq<string>, cells: seq<string>)
    requires RowOf(r, columns, cells) && Covers(columns, SelectPaths(fields, column))
    ensures DecodeColumn(fields, column, cells, columns) == AssembleColumn(fields, column, r)
  {
    if column < |fields| {
      var paths := SelectPaths(fields, column);
      if fields[column].isRelationship {
        StructAgrees(fields[column], fields[column].relationshipName, [fields[column].relationshipName], r,
                     columns, cells);
      } else {
        assert paths[0] == fields[column].name;
        LeafAgrees(fields[column].name, [fields[column].name], r, columns, cells);
      }
    }
  }

  // ----- The paths themselves -----------------------------------------------------

  function Joined(chains: seq<seq<string>>): (paths: seq<string>)
    ensures |paths| == |chains| && forall i | 0 <= i < |chains| :: paths[i] == Join(".", chains[i])
  {
    seq(|chains|, i requires 0 <= i < |chains| => Join(".", chains[i]))
  }

  /** The chains of names a projected column asks for, from the column itself down to each leaf. */
  function ColumnChains(fields: seq<Field>, column: nat): seq<seq<string>> {
    if column >= |fields| then []
    else if fields[column].isRelationship then
      Under([fields[column].relationshipName], LeafNames(fields[column].children))
    else [[fields[column].name]]
  }

  lemma {:induction false} EmittedAreJoined(children: seq<Field>, path: string, names: seq<string>)
    requires |names| > 0 && path == Join(".", names)
    ensures EmitChildren(children, path) == Joined(Under(names, LeafNames(children)))
    decreases children
  {
    if |children| > 0 {
      var child := children[0];
      var inner := Dotted(path, child.name);
      DottedIsJoined(path, names, child.name);
      EmittedAreJoined(children[1..], path, names);
      UnderParts(names, OwnLeafNames(child), LeafNames(children[1..]));
      JoinedParts(Under(names, OwnLeafNames(child)), Under(names, LeafNames(children[1..])));
      if child.isRelationship {
        EmittedAreJoined(child.children, inner, names + [child.name]);
        UnderTwice(names, [child.name], LeafNames(child.children));
      } else {
        assert Under(names, [[child.name]]) == [names + [child.name]];
        assert Joined([names + [child.name]]) == [inner];
      }
    }
  }

  lemma JoinedParts(a: seq<seq<string>>, b: seq<seq<string>>)
    ensures Joined(a + b) == Joined(a) + Joined(b)
  {
  }

  /** The SELECT list of a column: the names from its relationship down to each leaf, joined by dots, depth first. */
  lemma SelectPathsAreJoined(fields: seq<Field>, column: nat)
    ensures SelectPaths(fields, column) == Joined(ColumnChains(fields, column))
  {
    if column < |fields| {
      var f := fields[column];
      if f.isRelationship {
        EmittedAreJoined(f.children, f.relationshipName, [f.relationshipName]);
      } else {
        assert Joined([[f.name]]) == [f.name];
      }
    }
  }

  predicate NoDot(name: string) {
    forall i | 0 <= i < |name| :: name[i] != '.'
  }

  predicate NoDots(names: seq<string>) {
    forall i | 0 <= i < |names| :: NoDot(names[i])
  }

  /** The same names, whatever their case. */
  predicate SameNames(a: seq<string>, b: seq<string>) {
    |a| == |b| && forall i | 0 <= i < |a| :: CIEquals(a[i], b[i])
  }

  /** Where the first name of a joined chain ends. */
  lemma FirstName(names: seq<string>)
    requires |names| > 0
    ensures |names| == 1 ==> Join(".", names) == names[0]
    ensures |names| > 1 ==> Join(".", names) == names[0] + ("." + Join(".", names[1..]))
  {
    if |names| > 1 { Assoc(names[0], ".", Join(".", names[1..])); }
  }

  lemma LowerKeepsDots(a: string, b: string, i: nat)
    requires CIEquals(a, b) && i < |a|
    ensures |a| == |b| && (a[i] == '.' <==> b[i] == '.')
  {
    assert Lower(a)[i] == Lower(b)[i];
  }

  /** Equal up to case and cut at the same place: equal up to case on both sides. */
  lemma CutAlike(a: string, x: string, b: string, y: string)
    requires CIEquals(a + x, b + y) && |a| == |b|
    ensures CIEquals(a, b) && CIEquals(x, y)
  {
    forall i | 0 <= i < |a| ensures LowerChar(a[i]) == LowerChar(b[i]) {
      assert Lower(a + x)[i] == Lower(b + y)[i];
    }
    assert |a + x| == |Lower(a + x)| == |b + y|;
    forall i | 0 <= i < |x| ensures LowerChar(x[i]) == LowerChar(y[i]) {
      assert Lower(a + x)[|a| + i] == Lower(b + y)[|b| + i];
    }
  }

  /** The first names of two alike paths end at the same place. */
  lemma FirstNamesAlign(a: string, x: string, b: string, y: string)
    requires NoDot(a) && NoDot(b) && CIEquals(a + x, b + y)
    requires (x == "" || x[0] == '.') && (y == "" || y[0] == '.')
    ensures |a| == |b|
  {
    assert |a + x| == |Lower(a + x)| == |b + y|;
    if |a| < |b| && x != "" {
      LowerKeepsDots(a + x, b + y, |a|);
    } else if |b| < |a| && y != "" {
      LowerKeepsDots(b + y, a + x, |b|);
    }
  }

  /** Names without dots are recovered from their joined path, up to case. */
  lemma {:induction false} JoinedInjective(a: seq<string>, b: seq<string>)
    requires |a| > 0 && |b| > 0 && NoDots(a) && NoDots(b) && CIEquals(Join(".", a), Join(".", b))
    ensures SameNames(a, b)
    decreases |a|
  {
    FirstName(a);
    FirstName(b);
    var x := if |a| == 1 then "" else "." + Join(".", a[1..]);
    var y := if |b| == 1 then "" else "." + Join(".", b[1..]);
    assert Join(".", a) == a[0] + x && Join(".", b) == b[0] + y;
    FirstNamesAlign(a[0], x, b[0], y);
    CutAlike(a[0], x, b[0], y);
    assert |x| == |Lower(x)| == |y|;
    if |a| > 1 && |b| > 1 {
      CutAlike(".", Join(".", a[1..]), ".", Join(".", b[1..]));
      JoinedInjective(a[1..], b[1..]);
      assert forall i | 1 <= i < |a| :: a[i] == a[1..][i - 1] && b[i] == b[1..][i - 1];
    }
  }

  /** Siblings have different names without dots, at every level. */
  predicate ProperTree(children: seq<Field>)
    decreases children
  {
    && (forall i | 0 <= i < |children| :: NoDot(children[i].name))
    && (forall i, j | 0 <= i < j < |children| :: !CIEquals(children[i].name, children[j].name))
    && (forall i | 0 <= i < |children| && children[i].isRelationship :: ProperTree(children[i].children))
  }

  /** Each leaf's chain starts with the name of a child, and its names have no dots. */
  lemma {:induction false} LeafStarts(children: seq<Field>, k: nat)
    requires ProperTree(children) && k < |LeafNames(children)|
    ensures |LeafNames(children)[k]| > 0 && NoDots(LeafNames(children)[k])
    ensures exists i | 0 <= i < |children| :: LeafNames(children)[k][0] == children[i].name
    decreases children
  {
    var own, rest := OwnLeafNames(children[0]), LeafNames(children[1..]);
    if k < |own| {
      if children[0].isRelationship { LeafStarts(children[0].children, k); }
      assert LeafNames(children)[k] == own[k];
      assert LeafNames(children)[k][0] == children[0].name;
    } else {
      ProperRest(children);
      LeafStarts(children[1..], k - |own|);
      assert LeafNames(children)[k] == rest[k - |own|];
      var i :| 0 <= i < |children| - 1 && rest[k - |own|][0] == children[1..][i].name;
      assert children[1..][i] == children[i + 1];
    }
  }

  lemma ProperRest(children: seq<Field>)
    requires ProperTree(children) && |children| > 0
    ensures ProperTree(children[1..])
  {
    var rest := children[1..];
    assert forall i | 0 <= i < |rest| :: rest[i] == children[i + 1];
  }

  /** Different leaves of a proper tree have different chains of names. */
  lemma {:induction false} LeavesDiffer(children: seq<Field>, k: nat, m: nat)
    requires ProperTree(children) && k < m < |LeafNames(children)|
    ensures !SameNames(LeafNames(children)[k], LeafNames(children)[m])
    decreases children
  {
    var own, rest := OwnLeafNames(children[0]), LeafNames(children[1..]);
    assert LeafNames(children) == own + rest;
    ProperRest(children);
    if m < |own| {
      LeavesDiffer(children[0].children, k, m);
      var a, b := LeafNames(children[0].children)[k], LeafNames(children[0].children)[m];
      PrefixedDiffer(children[0].name, a, b);
    } else if k >= |own| {
      LeavesDiffer(children[1..], k - |own|, m - |own|);
    } else {
      LeafStarts(children[1..], m - |own|);
      var i :| 0 <= i < |children| - 1 && rest[m - |own|][0] == children[1..][i].name;
      assert children[1..][i] == children[i + 1];
      assert own[k][0] == children[0].name;
    }
  }

  lemma PrefixedDiffer(name: string, a: seq<string>, b: seq<string>)
    requires !SameNames(a, b)
    ensures !SameNames([name] + a, [name] + b)
  {
    if SameNames([name] + a, [name] + b) {
      forall i | 0 <= i < |a| ensures CIEquals(a[i], b[i]) {
        assert ([name] + a)[i + 1] == a[i] && ([name] + b)[i + 1] == b[i];
      }
    }
  }

  /** A relationship column of the scan: a name without dots over a proper tree. */
  predicate ProperColumn(f: Field) {
    f.isRelationship && NoDot(f.relationshipName) && ProperTree(f.children)
  }

  /** A path below a relationship has that relationship's name first and at least one dot. */
  lemma ColumnChainsProper(fields: seq<Field>, column: nat, k: nat)
    requires column < |fields| && ProperColumn(fields[column]) && k < |SelectPaths(fields, column)|
    ensures |ColumnChains(fields, column)| == |SelectPaths(fields, column)|
    ensures var chain := ColumnChains(fields, column)[k];
            && SelectPaths(fields, column)[k] == Join(".", chain) && NoDots(chain)
            && |chain| > 1 && chain[0] == fields[column].relationshipName
  {
    SelectPathsAreJoined(fields, column);
    LeafStarts(fields[column].children, k);
  }

  /** The leaf paths of one relationship column are all different, whatever the case. */
  lemma LeafPathsDiffer(fields: seq<Field>, column: nat, k: nat, m: nat)
    requires column < |fields| && ProperColumn(fields[column]) && k < m < |SelectPaths(fields, column)|
    ensures !CIEquals(SelectPaths(fields, column)[k], SelectPaths(fields, column)[m])
  {
    ColumnChainsProper(fields, column, k);
    ColumnChainsProper(fields, column, m);
    var a, b := ColumnChains(fields, column)[k], ColumnChains(fields, column)[m];
    if CIEquals(Join(".", a), Join(".", b)) {
      JoinedInjective(a, b);
      LeavesDiffer(fields[column].children, k, m);
      PrefixedDiffer(fields[column].relationshipName, LeafNames(fields[column].children)[k],
                     LeafNames(fields[column].children)[m]);
    }
  }

  /** No leaf path is the name of a field of the object itself, nor a path under another relationship. */
  lemma LeafPathsAreOwn(fields: seq<Field>, column: nat, k: nat, other: nat, m: nat)
    requires column < |fields| && ProperColumn(fields[column]) && k < |SelectPaths(fields, column)|
    requires other < |fields| && m < |SelectPaths(fields, other)|
    requires if !fields[other].isRelationship then NoDot(fields[other].name)
             else
               ProperColumn(fields[other]) && !CIEquals(fields[column].relationshipName, fields[other].relationshipName)
    ensures !CIEquals(SelectPaths(fields, column)[k], SelectPaths(fields, other)[m])
  {
    ColumnChainsProper(fields, column, k);
    SelectPathsAreJoined(fields, other);
    if fields[other].isRelationship { ColumnChainsProper(fields, other, m); }
    var a, b := ColumnChains(fields, column)[k], ColumnChains(fields, other)[m];
    if CIEquals(Join(".", a), Join(".", b)) { JoinedInjective(a, b); }
  }

  /** A header with every selected path has those of each projected column. */
  lemma {:induction false} ListCovers(columns: seq<string>, fields: seq<Field>, columnIds: seq<nat>, j: nat)
    requires Covers(columns, SelectedPaths(fields, columnIds)) && j < |columnIds|
    ensures Covers(columns, SelectPaths(fields, columnIds[j]))
    decreases j
  {
    CoversParts(columns, SelectPaths(fields, columnIds[0]), SelectedPaths(fields, columnIds[1..]));
    if j > 0 { ListCovers(columns, fields, columnIds[1..], j - 1); }
  }

  /** Two leaves with different paths never read the same column. */
  lemma LeavesReadOwnColumns(a: string, b: string, columns: seq<string>)
    requires !CIEquals(a, b) && FindColumn(columns, a).Some? && FindColumn(columns, b).Some?
    ensures FindColumn(columns, a).value != FindColumn(columns, b).value
  {
  }

  /** Two headers over the same record decode alike. */
  lemma HeaderOrderIrrelevant(fields: seq<Field>, column: nat, r: Record,
                              columns: seq<string>, cells: seq<string>, columns': seq<string>, cells': seq<string>)
    requires RowOf(r, columns, cells) && Covers(columns, SelectPaths(fields, column))
    requires RowOf(r, columns', cells') && Covers(columns', SelectPaths(fields, column))
    ensures DecodeColumn(fields, column, cells, columns) == DecodeColumn(fields, column, cells', columns')
  {
    SelectAndDecodeAgree(fields, column, r, columns, cells);
    SelectAndDecodeAgree(fields, column, r, columns', cells');
  }
}
