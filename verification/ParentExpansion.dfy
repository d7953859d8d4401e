/**
 Expansion of parent relationships into nested STRUCT columns: a recursion bounded by
 depth that keeps the objects on the current chain in a shared visited set and records
 one decision per reference field it looks at.
 */
module ParentExpansion {
  import opened Text
  import opened Describe

  /** Describes of parent objects, by lower-cased name; a missing one cannot be described. */
  type Describes = map<string, ObjectDescribe>

  datatype Reason =
    | NoRelationshipName | PolymorphicTarget | SelfReference | Cycle | NameCollision
    | ParentNotDescribable | NoFields | Expanded(fieldCount: nat)

  datatype Decision = Decision(name: string, parent: Option<string>, level: nat, reason: Reason)

  datatype Expansion = Expansion(rels: seq<Field>, decisions: seq<Decision>)

  predicate IsReference(f: Field) {
    Lower(f.sfType) == "reference"
  }

  predicate IsQueryableField(f: Field) {
    Lower(f.sfType) != "address" && Lower(f.sfType) != "location"
  }

  predicate NameTaken(fields: seq<Field>, name: string) {
    exists i | 0 <= i < |fields| :: CIEquals(fields[i].name, name)
  }

  /** Why a reference field is skipped before its parent is expanded, if it is. */
  function SkipReason(cat: Describes, desc: ObjectDescribe, f: Field, visited: set<string>): Option<Reason> {
    if f.relationshipName == "" then Some(NoRelationshipName)
    else if |f.referenceTo| != 1 then Some(PolymorphicTarget)
    else if CIEquals(f.referenceTo[0], desc.objectName) then Some(SelfReference)
    else if Lower(f.referenceTo[0]) in visited then Some(Cycle)
    else if NameTaken(desc.fields, f.relationshipName) then Some(NameCollision)
    else if Lower(f.referenceTo[0]) !in cat then Some(ParentNotDescribable)
    else None
  }

  function SkipDecision(f: Field, level: nat, reason: Reason): Decision {
    match reason
    case NoRelationshipName => Decision(f.name, None, level, reason)
    case PolymorphicTarget => Decision(f.relationshipName, None, level, reason)
    case _ => Decision(f.relationshipName, if |f.referenceTo| > 0 then Some(f.referenceTo[0]) else None, level, reason)
  }

  /** The parent's scalar fields, compound ones dropped. */
  function Scalars(fields: seq<Field>): seq<Field> {
    if |fields| == 0 then []
    else
      (if IsQueryableField(fields[0]) then [fields[0].(isRelationship := false, children := [])] else []) +
      Scalars(fields[1..])
  }

  /** Nested relationships join the children unless a child of that name is already there. */
  function AddNested(children: seq<Field>, nested: seq<Field>): seq<Field>
    decreases |nested|
  {
    if |nested| == 0 then children
    else AddNested(if NameTaken(children, nested[0].name) then children else children + [nested[0]], nested[1..])
  }

  function StructField(f: Field, children: seq<Field>): Field {
    Field(f.relationshipName, "", StructType, false, false, f.relationshipName, f.referenceTo, true, children)
  }

  function Expand(cat: Describes, desc: ObjectDescribe, depth: nat, visited: set<string>, level: nat): Expansion
    decreases depth, |desc.fields| + 2
  {
    if depth == 0 then Expansion([], []) else ExpandFields(cat, desc, desc.fields, depth, visited, level)
  }

  function ExpandFields(cat: Describes, desc: ObjectDescribe, fields: seq<Field>, depth: nat,
                        visited: set<string>, level: nat): Expansion
    requires depth > 0
    decreases depth, |fields| + 1
  {
    if |fields| == 0 then Expansion([], [])
    else
      var here := ExpandField(cat, desc, fields[0], depth, visited, level);
      var rest := ExpandFields(cat, desc, fields[1..], depth, visited, level);
      Expansion(here.rels + rest.rels, here.decisions + rest.decisions)
  }

  function ExpandField(cat: Describes, desc: ObjectDescribe, f: Field, depth: nat, visited: set<string>,
                       level: nat): Expansion
    requires depth > 0
    decreases depth, 0
  {
    if !IsReference(f) then Expansion([], [])
    else
      var skip := SkipReason(cat, desc, f, visited);
      if skip.Some? then Expansion([], [SkipDecision(f, level, skip.value)])
      else
        var key := Lower(f.referenceTo[0]);
        var nested := Expand(cat, cat[key], depth - 1, visited + {key}, level + 1);
        var children := AddNested(Scalars(cat[key].fields), nested.rels);
        if children == [] then Expansion([], nested.decisions + [SkipDecision(f, level, NoFields)])
        else
          var decision := Decision(f.relationshipName, Some(f.referenceTo[0]), level, Expanded(|children|));
          Expansion([StructField(f, children)], nested.decisions + [decision])
  }

  /** The schema entry's recursion over the shared visited set and diagnostics. */
  class Expander {
    const describes: Describes
    var visited: set<string>
    var decisions: seq<Decision>

    constructor (describes: Describes, root: string)
      ensures this.describes == describes && visited == {Lower(root)} && decisions == []
    {
      this.describes := describes;
      visited, decisions := {Lower(root)}, [];
    }

    /** One turn of the field loop: insert the parent, recurse, erase it again. */
    method ExpandOne(desc: ObjectDescribe, f: Field, depth: nat, level: nat) returns (rels: seq<Field>)
      requires depth > 0
      modifies this
      ensures visited == old(visited)
      ensures var r := ExpandField(describes, desc, f, depth, old(visited), level);
              rels == r.rels && decisions == old(decisions) + r.decisions
      decreases depth, 0
    {
      rels := [];
      if !IsReference(f) {
        return;
      }
      var skip := SkipReason(describes, desc, f, visited);
      if skip.Some? {
        decisions := decisions + [SkipDecision(f, level, skip.value)];
        return;
      }
      var key := Lower(f.referenceTo[0]);
      visited := visited + {key};
      var nested := BuildRelationshipFields(describes[key], depth - 1, level + 1);
      visited := visited - {key};
      var children := AddNested(Scalars(describes[key].fields), nested);
      if children == [] {
        decisions := decisions + [SkipDecision(f, level, NoFields)];
        return;
      }
      decisions := decisions + [Decision(f.relationshipName, Some(f.referenceTo[0]), level, Expanded(|children|))];
      rels := [StructField(f, children)];
    }

    method BuildRelationshipFields(desc: ObjectDescribe, depth: nat, level: nat) returns (rels: seq<Field>)
      modifies this
      ensures visited == old(visited)
      ensures var r := Expand(describes, desc, depth, old(visited), level);
              rels == r.rels && decisions == old(decisions) + r.decisions
      decreases depth, 1
    {
      rels := [];
      if depth <= 0 {
        return;
      }
      ghost var all := ExpandFields(describes, desc, desc.fields, depth, visited, level);
      for i := 0 to |desc.fields|
        invariant visited == old(visited)
        invariant rels + ExpandFields(describes, desc, desc.fields[i..], depth, visited, level).rels == all.rels
        invariant decisions + ExpandFields(describes, desc, desc.fields[i..], depth, visited, level).decisions ==
                  old(decisions) + all.decisions
      {
        ghost var here := ExpandField(describes, desc, desc.fields[i], depth, visited, level);
        ghost var rest := ExpandFields(describes, desc, desc.fields[i + 1..], depth, visited, level);
        assert desc.fields[i..][1..] == desc.fields[i + 1..];
        Assoc(rels, here.rels, rest.rels);
        Assoc(decisions, here.decisions, rest.decisions);
        var one := ExpandOne(desc, desc.fields[i], depth, level);
        rels := rels + one;
      }
      assert desc.fields[|desc.fields|..] == [];
    }
  }

  // ----- Bounded and acyclic ----------------------------------------------------

  /**
   The STRUCT nests at most `depth` levels; along every chain below it each target is new
   to the chain: not the root, not met above, whatever the case of its name.
   */
  predicate Nested(f: Field, depth: nat, visited: set<string>)
    decreases f
  {
    f.isRelationship ==>
      && depth > 0 && |f.referenceTo| == 1 && Lower(f.referenceTo[0]) !in visited
      && forall i | 0 <= i < |f.children| :: Nested(f.children[i], depth - 1, visited + {Lower(f.referenceTo[0])})
  }

  predicate AllNested(fs: seq<Field>, depth: nat, visited: set<string>) {
    forall i | 0 <= i < |fs| :: Nested(fs[i], depth, visited)
  }

  lemma {:induction false} ScalarsAreFlat(fields: seq<Field>)
    ensures forall i | 0 <= i < |Scalars(fields)| :: !Scalars(fields)[i].isRelationship
  {
    if |fields| > 0 { ScalarsAreFlat(fields[1..]); }
  }

  lemma {:induction false} AddNestedKeeps(children: seq<Field>, nested: seq<Field>, depth: nat, visited: set<string>)
    requires AllNested(children, depth, visited) && AllNested(nested, depth, visited)
    ensures AllNested(AddNested(children, nested), depth, visited)
    decreases |nested|
  {
    if |nested| > 0 {
      AddNestedKeeps(if NameTaken(children, nested[0].name) then children else children + [nested[0]],
                     nested[1..], depth, visited);
    }
  }

  lemma {:induction false} ExpandIsNested(cat: Describes, desc: ObjectDescribe, depth: nat,
                                          visited: set<string>, level: nat)
    ensures AllNested(Expand(cat, desc, depth, visited, level).rels, depth, visited)
    decreases depth, |desc.fields| + 2
  {
    if depth > 0 { FieldsAreNested(cat, desc, desc.fields, depth, visited, level); }
  }

  lemma {:induction false} FieldsAreNested(cat: Describes, desc: ObjectDescribe, fields: seq<Field>, depth: nat,
                                           visited: set<string>, level: nat)
    requires depth > 0
    ensures AllNested(ExpandFields(cat, desc, fields, depth, visited, level).rels, depth, visited)
    decreases depth, |fields| + 1
  {
    if |fields| > 0 {
      FieldIsNested(cat, desc, fields[0], depth, visited, level);
      FieldsAreNested(cat, desc, fields[1..], depth, visited, level);
    }
  }

  lemma {:induction false} FieldIsNested(cat: Describes, desc: ObjectDescribe, f: Field, depth: nat,
                                         visited: set<string>, level: nat)
    requires depth > 0
    ensures AllNested(ExpandField(cat, desc, f, depth, visited, level).rels, depth, visited)
    decreases depth, 0
  {
    if IsReference(f) && SkipReason(cat, desc, f, visited).None? {
      var key := Lower(f.referenceTo[0]);
      var nested := Expand(cat, cat[key], depth - 1, visited + {key}, level + 1);
      ExpandIsNested(cat, cat[key], depth - 1, visited + {key}, level + 1);
      ScalarsAreFlat(cat[key].fields);
      AddNestedKeeps(Scalars(cat[key].fields), nested.rels, depth - 1, visited + {key});
    }
  }

  /** A chain of nested STRUCTs, outermost first. */
  predicate IsChain(chain: seq<Field>) {
    && (forall i | 0 <= i < |chain| :: chain[i].isRelationship)
    && forall i | 0 <= i < |chain| - 1 :: chain[i + 1] in chain[i].children
  }

  /** The object a chain member stands for. */
  function Target(f: Field): string {
    if |f.referenceTo| == 1 then Lower(f.referenceTo[0]) else ""
  }

  /** What `Nested` says of any chain: it is short, and its objects are new and all different. */
  lemma {:induction false} ChainsAreSimple(chain: seq<Field>, depth: nat, visited: set<string>)
    requires IsChain(chain) && |chain| > 0 && Nested(chain[0], depth, visited)
    ensures |chain| <= depth
    ensures forall i | 0 <= i < |chain| :: |chain[i].referenceTo| == 1 && Target(chain[i]) !in visited
    ensures forall i, j | 0 <= i < j < |chain| :: Target(chain[i]) != Target(chain[j])
    decreases |chain|
  {
    if |chain| > 1 {
      var rest := chain[1..];
      assert chain[0 + 1] in chain[0].children;
      var k :| 0 <= k < |chain[0].children| && chain[0].children[k] == rest[0];
      forall i | 0 <= i < |rest| - 1 ensures rest[i + 1] in rest[i].children {
        assert chain[i + 1 + 1] in chain[i + 1].children;
      }
      ChainsAreSimple(rest, depth - 1, visited + {Target(chain[0])});
      forall i, j | 0 <= i < j < |chain| ensures Target(chain[i]) != Target(chain[j]) {
        assert chain[j] == rest[j - 1];
        if i > 0 { assert chain[i] == rest[i - 1]; }
      }
      forall i | 0 <= i < |chain| ensures |chain[i].referenceTo| == 1 && Target(chain[i]) !in visited {
        if i > 0 { assert chain[i] == rest[i - 1]; }
      }
    }
  }

  /** For every describe graph, cyclic ones included: bounded nesting and no object twice on a chain. */
  lemma ExpansionIsWellFounded(cat: Describes, root: ObjectDescribe, depth: nat, chain: seq<Field>)
    requires IsChain(chain) && |chain| > 0
    requires chain[0] in Expand(cat, root, depth, {Lower(root.objectName)}, 1).rels
    ensures |chain| <= depth
    ensures forall i | 0 <= i < |chain| ::
              |chain[i].referenceTo| == 1 && !CIEquals(chain[i].referenceTo[0], root.objectName)
    ensures forall i, j | 0 <= i < j < |chain| :: Target(chain[i]) != Target(chain[j])
  {
    var rels := Expand(cat, root, depth, {Lower(root.objectName)}, 1).rels;
    ExpandIsNested(cat, root, depth, {Lower(root.objectName)}, 1);
    var k :| 0 <= k < |rels| && rels[k] == chain[0];
    assert Nested(rels[k], depth, {Lower(root.objectName)});
    ChainsAreSimple(chain, depth, {Lower(root.objectName)});
  }

  // ----- One decision per reference field ----------------------------------------

  function References(fields: seq<Field>): seq<Field> {
    if |fields| == 0 then [] else (if IsReference(fields[0]) then [fields[0]] else []) + References(fields[1..])
  }

  function AtLevel(ds: seq<Decision>, level: nat): seq<Decision> {
    if |ds| == 0 then [] else (if ds[0].level == level then [ds[0]] else []) + AtLevel(ds[1..], level)
  }

  lemma {:induction false} AtLevelAppend(a: seq<Decision>, b: seq<Decision>, level: nat)
    ensures AtLevel(a + b, level) == AtLevel(a, level) + AtLevel(b, level)
  {
    if |a| == 0 {
      assert a + b == b;
    } else {
      assert (a + b)[1..] == a[1..] + b;
      AtLevelAppend(a[1..], b, level);
    }
  }

  lemma {:induction false} NoneAtLevel(ds: seq<Decision>, level: nat)
    requires forall i | 0 <= i < |ds| :: ds[i].level > level
    ensures AtLevel(ds, level) == []
  {
    if |ds| > 0 { NoneAtLevel(ds[1..], level); }
  }

  /** The decision's subject is the field. */
  predicate About(d: Decision, f: Field) {
    d.name == if f.relationshipName == "" then f.name else f.relationshipName
  }

  predicate MatchUp(ds: seq<Decision>, fs: seq<Field>) {
    |ds| == |fs| && forall i | 0 <= i < |fs| :: About(ds[i], fs[i])
  }

  predicate LevelsFrom(ds: seq<Decision>, level: nat) {
    forall i | 0 <= i < |ds| :: ds[i].level >= level
  }

  /**
   The decisions recorded at a call's own level are, in order, one for each reference field of
   its object; everything recorded below it is at a deeper level.
   */
  lemma {:induction false} OneDecisionPerReference(cat: Describes, desc: ObjectDescribe, depth: nat,
                                                   visited: set<string>, level: nat)
    requires depth > 0
    ensures var ds := Expand(cat, desc, depth, visited, level).decisions;
            LevelsFrom(ds, level) && MatchUp(AtLevel(ds, level), References(desc.fields))
    decreases depth, |desc.fields| + 2
  {
    DecisionsOfFields(cat, desc, desc.fields, depth, visited, level);
  }

  lemma {:induction false} DecisionsOfFields(cat: Describes, desc: ObjectDescribe, fields: seq<Field>,
                                             depth: nat, visited: set<string>, level: nat)
    requires depth > 0
    ensures var ds := ExpandFields(cat, desc, fields, depth, visited, level).decisions;
            LevelsFrom(ds, level) && MatchUp(AtLevel(ds, level), References(fields))
    decreases depth, |fields| + 1
  {
    if |fields| > 0 {
      DecisionsOfField(cat, desc, fields[0], depth, visited, level);
      DecisionsOfFields(cat, desc, fields[1..], depth, visited, level);
      AtLevelAppend(ExpandField(cat, desc, fields[0], depth, visited, level).decisions,
                    ExpandFields(cat, desc, fields[1..], depth, visited, level).decisions, level);
    }
  }

  lemma {:induction false} DecisionsOfField(cat: Describes, desc: ObjectDescribe, f: Field, depth: nat,
                                            visited: set<string>, level: nat)
    requires depth > 0
    ensures var ds := ExpandField(cat, desc, f, depth, visited, level).decisions;
            LevelsFrom(ds, level) && MatchUp(AtLevel(ds, level), if IsReference(f) then [f] else [])
    decreases depth, 0
  {
    if IsReference(f) {
      var ds := ExpandField(cat, desc, f, depth, visited, level).decisions;
      if SkipReason(cat, desc, f, visited).Some? {
        assert |ds| == 1 && ds[0] == SkipDecision(f, level, SkipReason(cat, desc, f, visited).value);
        assert ds[1..] == [];
        assert AtLevel(ds, level) == [ds[0]];
      } else {
        var key := Lower(f.referenceTo[0]);
        var nested := Expand(cat, cat[key], depth - 1, visited + {key}, level + 1).decisions;
        if depth > 1 {
          OneDecisionPerReference(cat, cat[key], depth - 1, visited + {key}, level + 1);
        }
        var own := ds[|nested|..];
        assert ds == nested + own && |own| == 1;
        OwnDecisionLast(nested, own[0], level);
        assert own == [own[0]];
      }
    }
  }

  /** The nested decisions lie deeper; at this level only the field's own is left. */
  lemma OwnDecisionLast(nested: seq<Decision>, own: Decision, level: nat)
    requires own.level == level && forall i | 0 <= i < |nested| :: nested[i].level > level
    ensures AtLevel(nested + [own], level) == [own]
  {
    NoneAtLevel(nested, level);
    AtLevelAppend(nested, [own], level);
    assert [own][1..] == [];
  }

  // ----- What is expanded -----------------------------------------------------------

  predicate IsCompound(f: Field) {
    Lower(f.sfType) in {"address", "location"}
  }

  /** A reference field that leads to exactly one new, describable parent under a free name. */
  predicate LeadsToParent(cat: Describes, desc: ObjectDescribe, f: Field, visited: set<string>) {
    && Lower(f.sfType) == "reference" && f.relationshipName != "" && |f.referenceTo| == 1
    && !CIEquals(f.referenceTo[0], desc.objectName)
    && Lower(f.referenceTo[0]) !in visited && Lower(f.referenceTo[0]) in cat
    && forall g :: g in desc.fields ==> !CIEquals(g.name, f.relationshipName)
  }

  /** The relationships nested below a parent, one level further up. */
  function NestedBelow(cat: Describes, f: Field, depth: nat, visited: set<string>, level: nat): seq<Field>
    requires depth > 0 && |f.referenceTo| == 1 && Lower(f.referenceTo[0]) in cat
  {
    var key := Lower(f.referenceTo[0]);
    Expand(cat, cat[key], depth - 1, visited + {key}, level + 1).rels
  }

  /** The parent's own fields, and then the relationships nested below it. */
  function ShownBelow(cat: Describes, f: Field, depth: nat, visited: set<string>, level: nat): seq<Field>
    requires depth > 0 && |f.referenceTo| == 1 && Lower(f.referenceTo[0]) in cat
  {
    AddNested(Scalars(cat[Lower(f.referenceTo[0])].fields), NestedBelow(cat, f, depth, visited, level))
  }

  lemma {:induction false} ScalarsAppend(a: seq<Field>, b: seq<Field>)
    ensures Scalars(a + b) == Scalars(a) + Scalars(b)
  {
    if |a| == 0 {
      assert a + b == b;
    } else {
      assert (a + b)[1..] == a[1..] + b;
      ScalarsAppend(a[1..], b);
      Assoc(if IsQueryableField(a[0]) then [a[0].(isRelationship := false, children := [])] else [],
            Scalars(a[1..]), Scalars(b));
    }
  }

  /** What one field of the parent contributes: itself as a plain field, unless it is compound. */
  function AsScalar(f: Field): seq<Field> {
    if IsCompound(f) then [] else [f.(isRelationship := false, children := [])]
  }

  /** The scalar children are the parent's fields that are not compound, in order, each as a plain field. */
  lemma ScalarsAre(before: seq<Field>, f: Field, after: seq<Field>)
    ensures Scalars(before + ([f] + after)) == Scalars(before) + (AsScalar(f) + Scalars(after))
  {
    ScalarsAppend(before, [f] + after);
    assert ([f] + after)[1..] == after;
  }

  /** Nested relationships follow the children in order, those whose name is taken left out. */
  lemma {:induction false} AddNestedIs(children: seq<Field>, nested: seq<Field>)
    ensures var all := AddNested(children, nested);
            && |children| <= |all| && all[..|children|] == children
            && (forall i | |children| <= i < |all| :: all[i] in nested && !NameTaken(all[..i], all[i].name))
            && (forall n :: n in nested ==> NameTaken(all, n.name))
    decreases |nested|
  {
    var all := AddNested(children, nested);
    if |nested| == 0 {
      assert all == children;
    } else {
      var more := if NameTaken(children, nested[0].name) then children else children + [nested[0]];
      AddNestedIs(more, nested[1..]);
      assert children == more[..|children|] == all[..|children|];
      forall i | |children| <= i < |all| ensures all[i] in nested && !NameTaken(all[..i], all[i].name) {
        if i < |more| { assert all[i] == more[i] && all[..i] == children; }
      }
      assert NameTaken(all, nested[0].name) by {
        var j :| 0 <= j < |more| && CIEquals(more[j].name, nested[0].name);
        assert all[j] == more[j];
      }
    }
  }

  lemma SkipIffNot(cat: Describes, desc: ObjectDescribe, f: Field, visited: set<string>)
    ensures IsReference(f) && SkipReason(cat, desc, f, visited).None? <==> LeadsToParent(cat, desc, f, visited)
  {
    if NameTaken(desc.fields, f.relationshipName) {
      var i :| 0 <= i < |desc.fields| && CIEquals(desc.fields[i].name, f.relationshipName);
      assert desc.fields[i] in desc.fields;
    }
  }

  /**
   A field yields a STRUCT, and then exactly one, if and only if it leads to a parent that has a field
   or a nested relationship to show. The STRUCT is named after the relationship; its children are the
   parent's non-compound fields and then the nested relationships with new names.
   */
  lemma ExpandedIff(cat: Describes, desc: ObjectDescribe, f: Field, depth: nat, visited: set<string>, level: nat)
    requires depth > 0
    ensures var rels := ExpandField(cat, desc, f, depth, visited, level).rels;
            && (rels != [] <==>
                  && LeadsToParent(cat, desc, f, visited)
                  && ShownBelow(cat, f, depth, visited, level) != [])
            && (rels != [] ==>
                  && |rels| == 1 && rels[0].isRelationship && rels[0].duckType == StructType
                  && rels[0].name == f.relationshipName
                  && rels[0].relationshipName == f.relationshipName && rels[0].referenceTo == f.referenceTo
                  && rels[0].children == ShownBelow(cat, f, depth, visited, level))
  {
    SkipIffNot(cat, desc, f, visited);
  }

  /** Which reason is recorded for a reference field that is skipped: the first that applies. */
  lemma ReasonIs(cat: Describes, desc: ObjectDescribe, f: Field, visited: set<string>)
    ensures var r := SkipReason(cat, desc, f, visited);
            && (r == Some(NoRelationshipName) <==> f.relationshipName == "")
            && (r == Some(PolymorphicTarget) <==> f.relationshipName != "" && |f.referenceTo| != 1)
            && (f.relationshipName != "" && |f.referenceTo| == 1 ==>
                  var key := Lower(f.referenceTo[0]);
                  var taken := exists g :: g in desc.fields && CIEquals(g.name, f.relationshipName);
                  && (r == Some(SelfReference) <==> key == Lower(desc.objectName))
                  && (r == Some(Cycle) <==> key != Lower(desc.objectName) && key in visited)
                  && (r == Some(NameCollision) <==> key != Lower(desc.objectName) && key !in visited && taken)
                  && (r == Some(ParentNotDescribable) <==>
                        key != Lower(desc.objectName) && key !in visited && !taken && key !in cat))
  {
    if NameTaken(desc.fields, f.relationshipName) {
      var i :| 0 <= i < |desc.fields| && CIEquals(desc.fields[i].name, f.relationshipName);
      assert desc.fields[i] in desc.fields;
    }
  }
}
