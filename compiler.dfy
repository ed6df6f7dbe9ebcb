/**
 * The raw IR compiler: a first pass compiles every operation and fragment
 * definition, leaving a placeholder for each fragment spread on a pending
 * list; a second pass resolves every placeholder against the fragment table.
 */
module Compiler {
  import opened Wrappers
  import opened Seqs
  import opened GraphQL
  import opened Ast
  import opened RawIR
  import opened BooleanConditions

  /** The input object types the schema declares. */
  ghost function InputObjectTypes(schema: Schema): set<NamedType> {
    set k | k in schema.inputFields :: NamedType(k, InputObjectKind)
  }

  /** Recording one more input object type leaves strictly fewer of them unrecorded. */
  lemma FewerUnrecorded(universe: set<NamedType>, before: set<NamedType>, after: set<NamedType>, t: NamedType)
    requires before <= after && t in after && t !in before && t in universe
    ensures |universe - after| < |universe - before|
  {
    var smaller := (universe - before) - {t};
    assert universe - after <= smaller;
    SubsetCardinality(universe - after, smaller);
  }

  lemma SubsetCardinality<T>(a: set<T>, b: set<T>)
    requires a <= b
    ensures |a| <= |b|
  {
    if a != {} {
      var x :| x in a;
      SubsetCardinality(a - {x}, b - {x});
    }
  }

  /**
   * `used` holds each recorded type once, only types that `addTypeUsed`
   * records, and is closed under input-object field types except for the
   * input objects in `walking`.
   */
  ghost predicate TypesUsedOK(schema: Schema, used: seq<NamedType>, walking: set<NamedType>) {
    && Distinct(used)
    && (forall t | t in used :: IsRecordedType(t))
    && ClosedExcept(schema, used, walking)
  }

  /** Appending a new type to be walked keeps the set consistent. */
  lemma RecordForWalk(schema: Schema, used: seq<NamedType>, walking: set<NamedType>, t: NamedType)
    requires TypesUsedOK(schema, used, walking) && t !in used && IsRecordedType(t)
    ensures TypesUsedOK(schema, used + [t], walking + {t})
  {
    var used' := used + [t];
    forall i, j | 0 <= i < j < |used'| ensures used'[i] != used'[j] {
      if j == |used| { assert used'[i] in used; }
    }
    forall u, f | u in used' && u !in walking + {t} && f in InputFieldTypes(schema, u) && IsRecordedType(GetNamedType(f))
      ensures GetNamedType(f) in used'
    {
      assert u in used;
    }
  }

  /** While the fields of input object `t` are walked, fewer input objects are unrecorded than on entry. */
  lemma WalkShrinksMeasure(schema: Schema, entry: seq<NamedType>, t: NamedType, used: seq<NamedType>)
    requires t.kind == InputObjectKind && t.name in schema.inputFields && t !in entry
    requires IsPrefix(entry + [t], used)
    ensures |InputObjectTypes(schema) - Elems(used)| < |InputObjectTypes(schema) - Elems(entry)|
  {
    assert used[..|entry| + 1] == entry + [t];
    assert used[|entry|] == t;
    forall x | x in entry ensures x in used {
      var k :| 0 <= k < |entry| && entry[k] == x;
      assert used[k] == (entry + [t])[k];
    }
    FewerUnrecorded(InputObjectTypes(schema), Elems(entry), Elems(used), t);
  }

  /** The named types of the first `i` of `types` that are recorded in `before` stay recorded, and the next joins them. */
  lemma FieldTypesStayRecorded(types: seq<TypeRef>, i: nat, before: seq<NamedType>, after: seq<NamedType>)
    requires i < |types|
    requires forall j :: 0 <= j < i && IsRecordedType(GetNamedType(types[j])) ==> GetNamedType(types[j]) in before
    requires IsPrefix(before, after)
    requires IsRecordedType(GetNamedType(types[i])) ==> GetNamedType(types[i]) in after
    ensures forall j :: 0 <= j < i + 1 && IsRecordedType(GetNamedType(types[j])) ==> GetNamedType(types[j]) in after
  {
    PrefixElems(before, after);
    forall j | 0 <= j < i && IsRecordedType(GetNamedType(types[j]))
      ensures GetNamedType(types[j]) in after
    {
      assert GetNamedType(types[j]) in Elems(before);
    }
  }

  /** `FieldTypesStayRecorded` for the types of variable definitions. */
  lemma VariableTypesStayRecorded(definitions: seq<VariableDefinitionNode>, i: nat, before: seq<NamedType>, after: seq<NamedType>)
    requires i < |definitions|
    requires forall k | 0 <= k < i && IsRecordedType(GetNamedType(definitions[k].variableType)) ::
      GetNamedType(definitions[k].variableType) in before
    requires IsPrefix(before, after)
    requires IsRecordedType(GetNamedType(definitions[i].variableType)) ==> GetNamedType(definitions[i].variableType) in after
    ensures forall k | 0 <= k < i + 1 && IsRecordedType(GetNamedType(definitions[k].variableType)) ::
      GetNamedType(definitions[k].variableType) in after
  {
    PrefixElems(before, after);
    forall k | 0 <= k < i && IsRecordedType(GetNamedType(definitions[k].variableType))
      ensures GetNamedType(definitions[k].variableType) in after
    {
      assert GetNamedType(definitions[k].variableType) in Elems(before);
    }
  }

  /** `t` is the named type of a field of the input object `owner`. */
  ghost predicate FieldTypeOf(schema: Schema, owner: NamedType, t: NamedType) {
    exists f | f in InputFieldTypes(schema, owner) :: GetNamedType(f) == t
  }

  /** The `j`-th recorded type is a field type of an input object recorded at or after `from` and before it. */
  ghost predicate Justified(schema: Schema, used: seq<NamedType>, from: int, j: int)
    requires 0 <= from <= j < |used|
  {
    exists k | from <= k < j :: FieldTypeOf(schema, used[k], used[j])
  }

  /**
   * Types recorded after position `from` of `before` stay justified as
   * `before` grows to `after`, when the first new type is a field type of the
   * type at `from` and each later new one is justified within the new part.
   */
  lemma JustifiedStep(schema: Schema, before: seq<NamedType>, after: seq<NamedType>, from: nat)
    requires IsPrefix(before, after) && from < |before|
    requires forall j | from < j < |before| :: Justified(schema, before, from, j)
    requires |after| > |before| ==> FieldTypeOf(schema, before[from], after[|before|])
    requires forall j | |before| < j < |after| :: Justified(schema, after, |before|, j)
    ensures forall j | from < j < |after| :: Justified(schema, after, from, j)
  {
    forall j | from < j < |after| ensures Justified(schema, after, from, j) {
      if j < |before| {
        assert Justified(schema, before, from, j);
        var k :| from <= k < j && FieldTypeOf(schema, before[k], before[j]);
        assert after[k] == before[k] && after[j] == before[j] by { assert after[..|before|] == before; }
      } else if j == |before| {
        assert after[from] == before[from] by { assert after[..|before|] == before; }
      } else {
        assert Justified(schema, after, |before|, j);
        var k :| |before| <= k < j && FieldTypeOf(schema, after[k], after[j]);
        assert from <= k < j;
      }
    }
  }

  /** Once every field type of `t` is recorded, `t` no longer needs to be exempt from closure. */
  lemma FieldsWalked(schema: Schema, used: seq<NamedType>, walking: set<NamedType>, t: NamedType, fields: seq<TypeRef>)
    requires fields == InputFieldTypes(schema, t)
    requires ClosedExcept(schema, used, walking + {t})
    requires forall j :: 0 <= j < |fields| && IsRecordedType(GetNamedType(fields[j])) ==> GetNamedType(fields[j]) in used
    ensures ClosedExcept(schema, used, walking)
  {
    forall u, f | u in used && u !in walking && f in InputFieldTypes(schema, u) && IsRecordedType(GetNamedType(f))
      ensures GetNamedType(f) in used
    {
      if u == t {
        var j :| 0 <= j < |fields| && fields[j] == f;
      }
    }
  }

  /**
   * The possible types of an inline fragment: those of its type condition
   * that are also possible where it stands, in the type condition's order.
   */
  function InlineFragmentPossibleTypes(schema: Schema, conditionType: NamedType, enclosing: seq<NamedType>): (r: seq<NamedType>)
    ensures forall t :: t in r <==> t in PossibleTypesForType(schema, conditionType) && t in enclosing
    ensures IsSubsequence(r, PossibleTypesForType(schema, conditionType))
    ensures !IsAbstractType(conditionType) ==> r == if conditionType in enclosing then [conditionType] else []
  {
    Filter(PossibleTypesForType(schema, conditionType), enclosing)
  }

  /** The type an inline fragment narrows to: its type condition, or the parent type when it has none. */
  function ConditionType(typeCondition: Option<NamedType>, parentType: NamedType): NamedType {
    if typeCondition.Some? then typeCondition.value else parentType
  }

  /** A spread of fragment `name` stands among the first `i` AST selections of a level. */
  ghost predicate SpreadBefore(nodes: seq<SelectionNode>, i: int, name: string)
    requires 0 <= i <= |nodes|
  {
    exists k | 0 <= k < i :: nodes[k].FragmentSpreadNode? && nodes[k].name == name
  }

  /** The `i`-th AST selection spreads a fragment already spread earlier at the same level. */
  ghost predicate Elided(nodes: seq<SelectionNode>, i: int)
    requires 0 <= i < |nodes|
  {
    nodes[i].FragmentSpreadNode? && SpreadBefore(nodes, i, nodes[i].name)
  }

  /** The `i`-th AST selection leaves nothing at its level: it is elided, or its first literal `@skip`/`@include` drops it. */
  ghost predicate Dropped(nodes: seq<SelectionNode>, i: int)
    requires 0 <= i < |nodes|
  {
    Elided(nodes, i) || DropsSelection(nodes[i].directives)
  }

  /** The positions of the AST selections among the first `i` that are not dropped, in source order. */
  ghost function Survivors(nodes: seq<SelectionNode>, i: nat): (r: seq<nat>)
    requires i <= |nodes|
    ensures forall k | 0 <= k < |r| :: r[k] < i
  {
    if i == 0 then [] else Survivors(nodes, i - 1) + (if Dropped(nodes, i - 1) then [] else [i - 1])
  }

  /** The survivors are exactly the positions that are not dropped, each once and in increasing order. */
  lemma {:induction false} SurvivorsExactly(nodes: seq<SelectionNode>, i: nat)
    requires i <= |nodes|
    ensures forall j | 0 <= j < i :: j in Survivors(nodes, i) <==> !Dropped(nodes, j)
    ensures forall k, l | 0 <= k < l < |Survivors(nodes, i)| :: Survivors(nodes, i)[k] < Survivors(nodes, i)[l]
  {
    if i > 0 {
      SurvivorsExactly(nodes, i - 1);
      var before := Survivors(nodes, i - 1);
      assert forall j | j in before :: j < i - 1;
      var after := Survivors(nodes, i);
      assert forall k | 0 <= k < |before| :: after[k] == before[k];
    }
  }

  /**
   * Compiling the AST selection `node` fails: a field unknown on the parent
   * type, a composite field without a selection set, or a failure in a nested
   * selection set. A spread never fails here; its fragment is looked up later.
   */
  ghost predicate CompileFails(schema: Schema, node: SelectionNode, parentType: NamedType)
    decreases node, 0
  {
    match node
    case FieldNode(_, name, _, _, selectionSet) =>
      || GetFieldDef(schema, parentType, name).None?
      || (var named := GetNamedType(GetFieldDef(schema, parentType, name).value.fieldType);
          IsCompositeType(named) && (selectionSet.None? || SetFails(schema, selectionSet.value, named)))
    case InlineFragmentNode(typeCondition, _, selectionSet) =>
      SetFails(schema, selectionSet, ConditionType(typeCondition, parentType))
    case FragmentSpreadNode(_, _) => false
  }

  /**
   * The `i`-th AST selection of a level fails: compiling it does, or, when it
   * is not elided, rewriting it by its directives does.
   */
  ghost predicate NodeFails(schema: Schema, nodes: seq<SelectionNode>, i: int, parentType: NamedType)
    requires 0 <= i < |nodes|
    decreases nodes[i], 1
  {
    CompileFails(schema, nodes[i], parentType) || (!Elided(nodes, i) && LacksArgument(nodes[i].directives))
  }

  /** Compiling a selection set fails when any of its selections does. */
  ghost predicate SetFails(schema: Schema, node: SelectionSetNode, parentType: NamedType)
    decreases node, 2
  {
    exists i | 0 <= i < |node.selections| :: NodeFails(schema, node.selections, i, parentType)
  }

  /** `argumentsFromAST`: each argument with its value converted by `convert`, in order. */
  function ArgumentsFromAST(convert: ValueNode -> Value, arguments: seq<ArgumentNode>): (r: seq<Argument>)
    ensures |r| == |arguments|
    ensures forall i :: 0 <= i < |r| ==> r[i].name == arguments[i].name && r[i].value == convert(arguments[i].value)
  {
    seq(|arguments|, i requires 0 <= i < |arguments| => Argument(arguments[i].name, convert(arguments[i].value)))
  }

  /**
   * The error compiling `node` fails with: an unknown field, then a composite
   * field without a selection set, then the error of the nested selection set.
   */
  ghost function SelectionError(schema: Schema, node: SelectionNode, parentType: NamedType): CompileError
    requires CompileFails(schema, node, parentType)
    decreases node, 0
  {
    match node
    case FieldNode(_, name, _, _, selectionSet) =>
      if GetFieldDef(schema, parentType, name).None? then UnknownField(name, parentType.name)
      else if selectionSet.None? then MissingSelectionSet(name, parentType.name)
      else SetError(schema, selectionSet.value, GetNamedType(GetFieldDef(schema, parentType, name).value.fieldType))
    case InlineFragmentNode(typeCondition, _, selectionSet) =>
      SetError(schema, selectionSet, ConditionType(typeCondition, parentType))
  }

  /** The error of the `i`-th AST selection of a level: its own, or else that of its directives. */
  ghost function NodeError(schema: Schema, nodes: seq<SelectionNode>, i: int, parentType: NamedType): CompileError
    requires 0 <= i < |nodes| && NodeFails(schema, nodes, i, parentType)
    decreases nodes[i], 1
  {
    if CompileFails(schema, nodes[i], parentType) then SelectionError(schema, nodes[i], parentType)
    else MissingDirectiveArgument(MissingArgumentName(nodes[i].directives))
  }

  /** The error of the first failing AST selection of a level from position `i` on. */
  ghost function SetErrorFrom(schema: Schema, node: SelectionSetNode, parentType: NamedType, i: nat): CompileError
    requires exists k | i <= k < |node.selections| :: NodeFails(schema, node.selections, k, parentType)
    decreases node, 2, |node.selections| - i
  {
    if NodeFails(schema, node.selections, i, parentType) then NodeError(schema, node.selections, i, parentType)
    else SetErrorFrom(schema, node, parentType, i + 1)
  }

  /** The error a failing selection set is compiled to: that of its first failing selection. */
  ghost function SetError(schema: Schema, node: SelectionSetNode, parentType: NamedType): CompileError
    requires SetFails(schema, node, parentType)
    decreases node, 3
  {
    FailingSelection(schema, node, parentType);
    SetErrorFrom(schema, node, parentType, 0)
  }

  lemma FailingSelection(schema: Schema, node: SelectionSetNode, parentType: NamedType)
    requires SetFails(schema, node, parentType)
    ensures exists k | 0 <= k < |node.selections| :: NodeFails(schema, node.selections, k, parentType)
  {
  }

  /** From position `j` on, the first failing selection is the `i`-th. */
  lemma {:induction false} SetErrorFromAt(schema: Schema, node: SelectionSetNode, parentType: NamedType, j: nat, i: nat)
    requires j <= i < |node.selections| && NodeFails(schema, node.selections, i, parentType)
    requires forall k | j <= k < i :: !NodeFails(schema, node.selections, k, parentType)
    ensures exists k | j <= k < |node.selections| :: NodeFails(schema, node.selections, k, parentType)
    ensures SetErrorFrom(schema, node, parentType, j) == NodeError(schema, node.selections, i, parentType)
    decreases i - j
  {
    if j < i {
      SetErrorFromAt(schema, node, parentType, j + 1, i);
    }
  }

  /** A selection set whose first failing selection is the `i`-th fails with that selection's error. */
  lemma SetErrorAt(schema: Schema, node: SelectionSetNode, parentType: NamedType, i: nat)
    requires i < |node.selections| && NodeFails(schema, node.selections, i, parentType)
    requires forall k | 0 <= k < i :: !NodeFails(schema, node.selections, k, parentType)
    ensures SetFails(schema, node, parentType)
    ensures SetError(schema, node, parentType) == NodeError(schema, node.selections, i, parentType)
  {
    SetErrorFromAt(schema, node, parentType, 0, i);
  }

  /**
   * Apart from its nested set, the compiled field `f` is what the AST field
   * `node` and its schema definition make of it: the node's name and alias,
   * the converted arguments when there are any, the definition's type, its
   * description unless the field is a meta field or the description is empty,
   * its deprecation, and whether the node carries `@skip` or `@include`.
   */
  ghost predicate FieldFrom(convert: ValueNode -> Value, node: SelectionNode, definition: FieldDef, f: CompiledField)
    requires node.FieldNode?
  {
    && f.name == node.name && f.alias == node.alias
    && f.responseKey == OrElse(node.alias, node.name)
    && f.args == (if node.arguments == [] then None else Some(ArgumentsFromAST(convert, node.arguments)))
    && f.fieldType == definition.fieldType
    && f.description == (if !IsMetaFieldName(node.name) && definition.description.Some? && definition.description.value != ""
                         then definition.description else None)
    && f.isDeprecated == definition.isDeprecated
    && f.deprecationReason == definition.deprecationReason
    && (f.hasOperationExclusiveDirectives <==> exists d | d in node.directives :: IsConditionalDirective(d))
  }

  /**
   * `s` is what the AST selection `node` compiles to at a level of
   * `parentType`: a field defined on the parent type, made from the node and
   * its definition as `FieldFrom` says, whose nested set, if any, is compiled
   * from the node's; an inline fragment on the node's
   * condition type whose set is compiled from the node's; or a spread of the
   * node's fragment.
   */
  ghost predicate SelectionCompiles(schema: Schema, convert: ValueNode -> Value, node: SelectionNode, parentType: NamedType, s: Selection)
    decreases node, 0
  {
    match node
    case FieldNode(_, name, _, _, selectionSet) =>
      && s.Field? && GetFieldDef(schema, parentType, name).Some?
      && FieldFrom(convert, node, GetFieldDef(schema, parentType, name).value, s.field)
      && (s.field.selectionSet.Some? ==>
            selectionSet.Some? && SetCompiles(schema, convert, selectionSet.value, GetNamedType(s.field.fieldType), s.field.selectionSet.value))
    case InlineFragmentNode(typeCondition, _, selectionSet) =>
      && s.TypeCondition? && s.conditionType == ConditionType(typeCondition, parentType)
      && SetCompiles(schema, convert, selectionSet, s.conditionType, s.selectionSet)
    case FragmentSpreadNode(name, _) => s.FragmentSpread? && s.fragmentName == name
  }

  /** `s` is `node` compiled and then rewritten by the node's directives. */
  ghost predicate Kept(schema: Schema, convert: ValueNode -> Value, node: SelectionNode, parentType: NamedType, possibleTypes: seq<NamedType>, s: Selection)
    decreases node, 1
  {
    && ApplyDirectives(Unwrap(s), node.directives, possibleTypes) == Ok(Some(s))
    && SelectionCompiles(schema, convert, node, parentType, Unwrap(s))
  }

  /**
   * `ss` is what the AST selection set `node` compiles to: one selection per
   * AST selection that is not dropped, in source order, each that selection
   * compiled and rewritten by its directives.
   */
  ghost predicate SetCompiles(schema: Schema, convert: ValueNode -> Value, node: SelectionSetNode, parentType: NamedType, ss: SelectionSet)
    decreases node, 2
  {
    var origin := Survivors(node.selections, |node.selections|);
    && |ss.selections| == |origin|
    && forall k | 0 <= k < |origin| :: Kept(schema, convert, node.selections[origin[k]], parentType, ss.possibleTypes, ss.selections[k])
  }

  /**
   * Fragment `n` is spread somewhere in what compiling `node` at a level of
   * `parentType` walks: the node itself, or a selection nested in a composite
   * field or an inline fragment. A leaf field's selections are never walked.
   */
  ghost predicate SpreadIn(schema: Schema, node: SelectionNode, parentType: NamedType, n: string)
    decreases node, 0
  {
    match node
    case FieldNode(_, name, _, _, selectionSet) =>
      && GetFieldDef(schema, parentType, name).Some?
      && var named := GetNamedType(GetFieldDef(schema, parentType, name).value.fieldType);
         IsCompositeType(named) && selectionSet.Some? && SpreadInSet(schema, selectionSet.value, named, n)
    case InlineFragmentNode(typeCondition, _, selectionSet) =>
      SpreadInSet(schema, selectionSet, ConditionType(typeCondition, parentType), n)
    case FragmentSpreadNode(name, _) => name == n
  }

  ghost predicate SpreadInSet(schema: Schema, node: SelectionSetNode, parentType: NamedType, n: string)
    decreases node, 1
  {
    exists k | 0 <= k < |node.selections| :: SpreadIn(schema, node.selections[k], parentType, n)
  }

  /**
   * The fragment names compiling `node` at a level of `parentType` pushes
   * placeholders for, in push order: the spread itself, or those of the
   * selection set nested in a composite field or an inline fragment.
   */
  ghost function SpreadOrder(schema: Schema, node: SelectionNode, parentType: NamedType): seq<string>
    decreases node, 0
  {
    match node
    case FieldNode(_, name, _, _, selectionSet) =>
      if GetFieldDef(schema, parentType, name).None? then []
      else
        var named := GetNamedType(GetFieldDef(schema, parentType, name).value.fieldType);
        if IsCompositeType(named) && selectionSet.Some? then SetSpreadOrder(schema, selectionSet.value, named) else []
    case InlineFragmentNode(typeCondition, _, selectionSet) =>
      SetSpreadOrder(schema, selectionSet, ConditionType(typeCondition, parentType))
    case FragmentSpreadNode(name, _) => [name]
  }

  /** The names pushed for the first `i` AST selections of a level; an elided spread pushes nothing. */
  ghost function LevelSpreadOrder(schema: Schema, node: SelectionSetNode, i: nat, parentType: NamedType): seq<string>
    requires i <= |node.selections|
    decreases node, 1, i
  {
    if i == 0 then []
    else
      LevelSpreadOrder(schema, node, i - 1, parentType)
      + (if Elided(node.selections, i - 1) then [] else SpreadOrder(schema, node.selections[i - 1], parentType))
  }

  ghost function SetSpreadOrder(schema: Schema, node: SelectionSetNode, parentType: NamedType): seq<string>
    decreases node, 2
  {
    LevelSpreadOrder(schema, node, |node.selections|, parentType)
  }

  /** The placeholders from `from` on are, in order, for the fragments `names`. */
  ghost predicate PushedInOrder(sites: seq<SpreadRecord>, from: int, names: seq<string>) {
    && 0 <= from && from + |names| == |sites|
    && forall j | 0 <= j < |names| :: sites[from + j].fragmentName == names[j]
  }

  /** Pushes in order for `n1` and then for `n2` are pushes in order for `n1 + n2`. */
  lemma PushedInOrderAppend(a: seq<SpreadRecord>, b: seq<SpreadRecord>, from: int, n1: seq<string>, n2: seq<string>)
    requires PushedInOrder(a, from, n1) && IsPrefix(a, b) && PushedInOrder(b, |a|, n2)
    ensures PushedInOrder(b, from, n1 + n2)
  {
    forall j | 0 <= j < |n1 + n2| ensures b[from + j].fragmentName == (n1 + n2)[j] {
      if j < |n1| {
        assert b[from + j] == b[..|a|][from + j];
      }
    }
  }

  /**
   * `t` is the named type of a field that compiling `node` at a level of
   * `parentType` records: a field known on the parent type, or a field of the
   * selection set nested in a composite field or an inline fragment. A field
   * is compiled, and its type recorded, before its directives can drop it.
   */
  ghost predicate TypeIn(schema: Schema, node: SelectionNode, parentType: NamedType, t: NamedType)
    decreases node, 0
  {
    match node
    case FieldNode(_, name, _, _, selectionSet) =>
      && GetFieldDef(schema, parentType, name).Some?
      && var named := GetNamedType(GetFieldDef(schema, parentType, name).value.fieldType);
         (t == named || (IsCompositeType(named) && selectionSet.Some? && TypeInSet(schema, selectionSet.value, named, t)))
    case InlineFragmentNode(typeCondition, _, selectionSet) =>
      TypeInSet(schema, selectionSet, ConditionType(typeCondition, parentType), t)
    case FragmentSpreadNode(_, _) => false
  }

  ghost predicate TypeInSet(schema: Schema, node: SelectionSetNode, parentType: NamedType, t: NamedType)
    decreases node, 1
  {
    exists k | 0 <= k < |node.selections| :: TypeIn(schema, node.selections[k], parentType, t)
  }

  /** Every type of the recorded kinds that the first `i` AST selections of a level record is in `used`. */
  ghost predicate LevelRecorded(schema: Schema, nodes: seq<SelectionNode>, i: nat, parentType: NamedType, used: seq<NamedType>)
    requires i <= |nodes|
  {
    forall k, t | 0 <= k < i && TypeIn(schema, nodes[k], parentType, t) && IsRecordedType(t) :: t in used
  }

  /** One more AST selection whose types are recorded keeps the level's types recorded as `used` grows. */
  lemma RecordedStep(schema: Schema, nodes: seq<SelectionNode>, i: nat, parentType: NamedType, used: seq<NamedType>, used': seq<NamedType>)
    requires i < |nodes| && LevelRecorded(schema, nodes, i, parentType, used) && IsPrefix(used, used')
    requires forall t | TypeIn(schema, nodes[i], parentType, t) && IsRecordedType(t) :: t in used'
    ensures LevelRecorded(schema, nodes, i + 1, parentType, used')
  {
    PrefixElems(used, used');
  }

  /** The types a whole level records are those its AST selections record. */
  lemma RecordedDone(schema: Schema, node: SelectionSetNode, parentType: NamedType, used: seq<NamedType>)
    requires LevelRecorded(schema, node.selections, |node.selections|, parentType, used)
    ensures forall t | TypeInSet(schema, node, parentType, t) && IsRecordedType(t) :: t in used
  {
  }

  /** The placeholders of a level after one more AST selection, in push order. */
  lemma OrderStep(schema: Schema, node: SelectionSetNode, i: nat, parentType: NamedType, start: int,
                  sites: seq<SpreadRecord>, sites': seq<SpreadRecord>, visited: set<string>)
    requires i < |node.selections| && IsPrefix(sites, sites')
    requires PushedInOrder(sites, start, LevelSpreadOrder(schema, node, i, parentType))
    requires forall n :: n in visited <==> SpreadBefore(node.selections, i, n)
    requires PushedInOrder(sites', |sites|,
      if node.selections[i].FragmentSpreadNode? && node.selections[i].name in visited then []
      else SpreadOrder(schema, node.selections[i], parentType))
    ensures PushedInOrder(sites', start, LevelSpreadOrder(schema, node, i + 1, parentType))
  {
    assert Elided(node.selections, i) <==> node.selections[i].FragmentSpreadNode? && node.selections[i].name in visited;
    PushedInOrderAppend(sites, sites', start, LevelSpreadOrder(schema, node, i, parentType),
      if Elided(node.selections, i) then [] else SpreadOrder(schema, node.selections[i], parentType));
  }

  /** A placeholder for fragment `n` stands in `sites` at or after position `from`. */
  ghost predicate Pushed(sites: seq<SpreadRecord>, from: int, n: string)
    requires 0 <= from <= |sites|
  {
    exists j | from <= j < |sites| :: sites[j].fragmentName == n
  }

  /** What was pushed since `from` is what was pushed before `b` grew from `a`, and what was pushed since. */
  lemma PushedSplit(a: seq<SpreadRecord>, b: seq<SpreadRecord>, from: nat)
    requires from <= |a| && IsPrefix(a, b)
    ensures forall n :: Pushed(b, from, n) <==> Pushed(a, from, n) || Pushed(b, |a|, n)
  {
    forall n ensures Pushed(b, from, n) <==> Pushed(a, from, n) || Pushed(b, |a|, n) {
      if Pushed(a, from, n) {
        var j :| from <= j < |a| && a[j].fragmentName == n;
        assert b[j] == b[..|a|][j];
      }
      if Pushed(b, from, n) && !Pushed(b, |a|, n) {
        var j :| from <= j < |b| && b[j].fragmentName == n;
        assert b[j] == b[..|a|][j];
      }
    }
  }

  /**
   * The placeholders pushed since `start` and the recorded types after the
   * first `i` AST selections of a level: which names were pushed, in which
   * order, and that every type the selections name is recorded.
   */
  ghost predicate LevelTracked(schema: Schema, node: SelectionSetNode, i: nat, parentType: NamedType, start: nat,
                               sites: seq<SpreadRecord>, used: seq<NamedType>)
    requires i <= |node.selections|
  {
    && start <= |sites|
    && LevelPushed(schema, node.selections, i, parentType, start, sites)
    && PushedInOrder(sites, start, LevelSpreadOrder(schema, node, i, parentType))
    && LevelRecorded(schema, node.selections, i, parentType, used)
  }

  /** The placeholders pushed since `start` are for exactly the fragments spread in the first `i` AST selections. */
  ghost predicate LevelPushed(schema: Schema, nodes: seq<SelectionNode>, i: nat, parentType: NamedType, start: nat, sites: seq<SpreadRecord>)
    requires i <= |nodes| && start <= |sites|
  {
    forall n :: Pushed(sites, start, n) <==> exists k | 0 <= k < i :: SpreadIn(schema, nodes[k], parentType, n)
  }

  /**
   * The fragments pushed while compiling one more AST selection: those it
   * spreads, except a spread elided because its name was visited already.
   */
  lemma PushStep(schema: Schema, nodes: seq<SelectionNode>, i: nat, parentType: NamedType, start: nat,
                 sites: seq<SpreadRecord>, sites': seq<SpreadRecord>, visited: set<string>)
    requires i < |nodes| && start <= |sites| && IsPrefix(sites, sites')
    requires LevelPushed(schema, nodes, i, parentType, start, sites)
    requires forall n :: n in visited <==> SpreadBefore(nodes, i, n)
    requires forall n :: Pushed(sites', |sites|, n) <==>
      SpreadIn(schema, nodes[i], parentType, n) && !(nodes[i].FragmentSpreadNode? && nodes[i].name in visited)
    ensures LevelPushed(schema, nodes, i + 1, parentType, start, sites')
  {
    PushedSplit(sites, sites', start);
    forall n ensures Pushed(sites', start, n) <==> exists k | 0 <= k < i + 1 :: SpreadIn(schema, nodes[k], parentType, n) {
      if SpreadIn(schema, nodes[i], parentType, n) && nodes[i].FragmentSpreadNode? && nodes[i].name in visited {
        var k :| 0 <= k < i && nodes[k].FragmentSpreadNode? && nodes[k].name == n;
        assert SpreadIn(schema, nodes[k], parentType, n);
      }
      if exists k | 0 <= k < i + 1 :: SpreadIn(schema, nodes[k], parentType, n) {
        var k :| 0 <= k < i + 1 && SpreadIn(schema, nodes[k], parentType, n);
        if k < i {
          assert exists k | 0 <= k < i :: SpreadIn(schema, nodes[k], parentType, n);
        }
      }
    }
  }

  /**
   * Compiling the definition fails: an unnamed operation, an operation whose
   * kind has no root type, or a selection set that fails to compile.
   */
  ghost predicate DefinitionFails(schema: Schema, definition: DefinitionNode) {
    match definition
    case OperationDefinition(operation, name, _, selectionSet, _, _) =>
      name.None? || operation !in schema.rootTypes || SetFails(schema, selectionSet, schema.rootTypes[operation])
    case FragmentDefinition(_, typeCondition, selectionSet, _, _) => SetFails(schema, selectionSet, typeCondition)
    case OtherDefinition => false
  }

  /**
   * The error a failing definition is compiled to: an unnamed operation, then
   * a missing root type, then the error of the selection set.
   */
  ghost function DefinitionError(schema: Schema, definition: DefinitionNode): CompileError
    requires DefinitionFails(schema, definition)
  {
    match definition
    case OperationDefinition(operation, name, _, selectionSet, _, _) =>
      if name.None? then UnnamedOperation
      else if operation !in schema.rootTypes then MissingRootType(operation)
      else SetError(schema, selectionSet, schema.rootTypes[operation])
    case FragmentDefinition(_, typeCondition, selectionSet, _, _) => SetError(schema, selectionSet, typeCondition)
  }

  /** Fragment `n` is spread somewhere in what compiling the definition walks. */
  ghost predicate SpreadInDefinition(schema: Schema, definition: DefinitionNode, n: string) {
    match definition
    case OperationDefinition(operation, _, _, selectionSet, _, _) =>
      operation in schema.rootTypes && SpreadInSet(schema, selectionSet, schema.rootTypes[operation], n)
    case FragmentDefinition(_, typeCondition, selectionSet, _, _) => SpreadInSet(schema, selectionSet, typeCondition, n)
    case OtherDefinition => false
  }

  /** The names compiling the definition pushes placeholders for, in push order. */
  ghost function DefinitionSpreadOrder(schema: Schema, definition: DefinitionNode): seq<string> {
    match definition
    case OperationDefinition(operation, _, _, selectionSet, _, _) =>
      if operation in schema.rootTypes then SetSpreadOrder(schema, selectionSet, schema.rootTypes[operation]) else []
    case FragmentDefinition(_, typeCondition, selectionSet, _, _) => SetSpreadOrder(schema, selectionSet, typeCondition)
    case OtherDefinition => []
  }

  /** `t` is the named type of a variable of the operation, or of a field that compiling the definition records. */
  ghost predicate TypeInDefinition(schema: Schema, definition: DefinitionNode, t: NamedType) {
    match definition
    case OperationDefinition(operation, _, variableDefinitions, selectionSet, _, _) =>
      || (exists v | v in variableDefinitions :: GetNamedType(v.variableType) == t)
      || (operation in schema.rootTypes && TypeInSet(schema, selectionSet, schema.rootTypes[operation], t))
    case FragmentDefinition(_, typeCondition, selectionSet, _, _) => TypeInSet(schema, selectionSet, typeCondition, t)
    case OtherDefinition => false
  }

  /** The scan of a field's directives for `@skip` or `@include`, stopping at the first one. */
  method HasOperationExclusiveDirectives(directives: seq<DirectiveNode>) returns (b: bool)
    ensures b <==> exists d | d in directives :: IsConditionalDirective(d)
  {
    b := false;
    var j := 0;
    while j < |directives| && !b
      invariant 0 <= j <= |directives|
      invariant b <==> exists k | 0 <= k < j :: IsConditionalDirective(directives[k])
    {
      if directives[j].name == "skip" || directives[j].name == "include" {
        b := true;
      }
      j := j + 1;
    }
  }

  /**
   * What `compileSelectionSet` keeps for the selections compiled from the
   * first `i` AST selections of one level, `visited` its visited fragments.
   */
  ghost predicate LevelOK(schema: Schema, convert: ValueNode -> Value, nodes: seq<SelectionNode>, i: nat, parentType: NamedType, possibleTypes: seq<NamedType>,
                          selections: seq<Selection>, origin: seq<nat>, visited: set<string>,
                          sites: seq<SpreadRecord>, used: set<NamedType>)
  {
    && i <= |nodes|
    && LevelWellFormed(schema, parentType, possibleTypes, selections, visited, sites, used)
    && (forall n :: n in visited <==> SpreadBefore(nodes, i, n))
    && LevelFaithful(schema, convert, nodes, i, parentType, possibleTypes, selections, origin)
  }

  /** The selections of a level are well formed, and each fragment they spread is visited and spread once. */
  ghost predicate LevelWellFormed(schema: Schema, parentType: NamedType, possibleTypes: seq<NamedType>, selections: seq<Selection>,
                                  visited: set<string>, sites: seq<SpreadRecord>, used: set<NamedType>)
  {
    && (forall s | s in selections :: SelectionOK(schema, s, parentType, possibleTypes, sites, used))
    && Distinct(LevelSpreadNames(selections))
    && (forall n | n in LevelSpreadNames(selections) :: n in visited)
  }

  /**
   * The selections of a level are those compiled from the surviving ones of
   * the first `i` AST selections, in order, and none of those failed.
   */
  ghost predicate LevelFaithful(schema: Schema, convert: ValueNode -> Value, nodes: seq<SelectionNode>, i: nat, parentType: NamedType, possibleTypes: seq<NamedType>,
                                selections: seq<Selection>, origin: seq<nat>)
    requires i <= |nodes|
  {
    && origin == Survivors(nodes, i)
    && |selections| == |origin|
    && (forall k | 0 <= k < |origin| :: Kept(schema, convert, nodes[origin[k]], parentType, possibleTypes, selections[k]))
    && (forall k | 0 <= k < i :: !NodeFails(schema, nodes, k, parentType))
  }

  /** Appending a well-formed selection whose spread, if any, was just visited keeps the level well formed. */
  lemma WellFormedStep(schema: Schema, parentType: NamedType, possibleTypes: seq<NamedType>, selections: seq<Selection>,
                       visited: set<string>, sites: seq<SpreadRecord>, used: set<NamedType>,
                       visited': set<string>, sites': seq<SpreadRecord>, used': set<NamedType>, w: Option<Selection>)
    requires LevelWellFormed(schema, parentType, possibleTypes, selections, visited, sites, used)
    requires visited <= visited' && IsPrefix(sites, sites') && used <= used'
    requires w.Some? ==>
      && SelectionOK(schema, w.value, parentType, possibleTypes, sites', used')
      && (LevelSpreadName(w.value) == [] ||
          (|LevelSpreadName(w.value)| == 1 && LevelSpreadName(w.value)[0] !in visited && LevelSpreadName(w.value)[0] in visited'))
    ensures w.None? ==> LevelWellFormed(schema, parentType, possibleTypes, selections, visited', sites', used')
    ensures w.Some? ==> LevelWellFormed(schema, parentType, possibleTypes, selections + [w.value], visited', sites', used')
  {
    forall x | x in selections
      ensures SelectionOK(schema, x, parentType, possibleTypes, sites', used')
    {
      SelectionOKMonotonic(schema, x, parentType, possibleTypes, sites, used, sites', used');
    }
    if w.Some? {
      var selections' := selections + [w.value];
      assert selections'[..|selections|] == selections;
      assert LevelSpreadNames(selections') == LevelSpreadNames(selections) + LevelSpreadName(w.value);
    }
  }

  /** A selection that did not fail is kept, rewritten, exactly when it is not dropped. */
  lemma FaithfulStep(schema: Schema, convert: ValueNode -> Value, nodes: seq<SelectionNode>, i: nat, parentType: NamedType, possibleTypes: seq<NamedType>,
                     selections: seq<Selection>, origin: seq<nat>, w: Option<Selection>)
    requires i < |nodes| && LevelFaithful(schema, convert, nodes, i, parentType, possibleTypes, selections, origin)
    requires !NodeFails(schema, nodes, i, parentType)
    requires w.None? <==> Dropped(nodes, i)
    requires w.Some? ==> Kept(schema, convert, nodes[i], parentType, possibleTypes, w.value)
    ensures w.None? ==> LevelFaithful(schema, convert, nodes, i + 1, parentType, possibleTypes, selections, origin)
    ensures w.Some? ==> LevelFaithful(schema, convert, nodes, i + 1, parentType, possibleTypes, selections + [w.value], origin + [i])
  {
    if w.Some? {
      var selections', origin' := selections + [w.value], origin + [i];
      assert forall k | 0 <= k < |origin| :: origin'[k] == origin[k] && selections'[k] == selections[k];
    }
  }

  /** A selection set fails when one of its selections does. */
  lemma FailsAt(schema: Schema, node: SelectionSetNode, i: nat, parentType: NamedType)
    requires i < |node.selections| && NodeFails(schema, node.selections, i, parentType)
    ensures SetFails(schema, node, parentType)
  {
  }

  /** A selection set fails when the directives of a selection that was not elided lack their argument. */
  lemma DirectivesFailAt(schema: Schema, node: SelectionSetNode, i: nat, parentType: NamedType, possibleTypes: seq<NamedType>,
                         visited: set<string>, compiled: Option<Selection>, wrapped: Result<Option<Selection>, CompileError>)
    requires i < |node.selections|
    requires forall n :: n in visited <==> SpreadBefore(node.selections, i, n)
    requires node.selections[i].FragmentSpreadNode? ==> (compiled.None? <==> node.selections[i].name in visited)
    requires compiled.None? ==> wrapped == Ok(None)
    requires compiled.Some? ==> wrapped == ApplyDirectives(compiled.value, node.selections[i].directives, possibleTypes)
    requires wrapped.Err?
    ensures !Elided(node.selections, i) && NodeFails(schema, node.selections, i, parentType)
    ensures SetFails(schema, node, parentType)
  {
    assert !Elided(node.selections, i);
    assert NodeFails(schema, node.selections, i, parentType);
  }

  /** After the last AST selection, the level is the compiled selection set. */
  lemma LevelDone(schema: Schema, convert: ValueNode -> Value, node: SelectionSetNode, parentType: NamedType, possibleTypes: seq<NamedType>,
                  selections: seq<Selection>, origin: seq<nat>, visited: set<string>,
                  sites: seq<SpreadRecord>, used: set<NamedType>, start: nat)
    requires LevelOK(schema, convert, node.selections, |node.selections|, parentType, possibleTypes, selections, origin, visited, sites, used)
    requires start <= |sites| && LevelPushed(schema, node.selections, |node.selections|, parentType, start, sites)
    ensures !SetFails(schema, node, parentType)
    ensures SetCompiles(schema, convert, node, parentType, SelectionSet(possibleTypes, selections))
    ensures SelectionSetOK(schema, SelectionSet(possibleTypes, selections), parentType, sites, used)
    ensures forall n :: Pushed(sites, start, n) <==> SpreadInSet(schema, node, parentType, n)
  {
  }

  /** The fragments visited after one more AST selection. */
  lemma VisitedStep(nodes: seq<SelectionNode>, i: nat, visited: set<string>, visited': set<string>)
    requires i < |nodes|
    requires forall n :: n in visited <==> SpreadBefore(nodes, i, n)
    requires visited' == if nodes[i].FragmentSpreadNode? then visited + {nodes[i].name} else visited
    ensures forall n :: n in visited' <==> SpreadBefore(nodes, i + 1, n)
  {
    forall n ensures n in visited' <==> SpreadBefore(nodes, i + 1, n) {
      if SpreadBefore(nodes, i + 1, n) && !SpreadBefore(nodes, i, n) {
        var k :| 0 <= k < i + 1 && nodes[k].FragmentSpreadNode? && nodes[k].name == n;
        assert k == i;
      }
      if SpreadBefore(nodes, i, n) {
        var k :| 0 <= k < i && nodes[k].FragmentSpreadNode? && nodes[k].name == n;
        assert 0 <= k < i + 1;
      }
      if nodes[i].FragmentSpreadNode? && n == nodes[i].name {
        assert 0 <= i < i + 1;
      }
    }
  }

  /**
   * What one AST selection comes to: it is elided exactly when nothing was
   * compiled, dropped exactly when nothing is left after its directives, it did
   * not fail, and what is left is kept and well formed.
   */
  lemma StepFacts(schema: Schema, convert: ValueNode -> Value, nodes: seq<SelectionNode>, i: nat, parentType: NamedType, possibleTypes: seq<NamedType>,
                  visited: set<string>, visited': set<string>, sites': seq<SpreadRecord>, used': set<NamedType>,
                  compiled: Option<Selection>, wrapped: Option<Selection>)
    requires i < |nodes|
    requires forall n :: n in visited <==> SpreadBefore(nodes, i, n)
    requires !CompileFails(schema, nodes[i], parentType)
    requires compiled.Some? ==>
      && SelectionOK(schema, compiled.value, parentType, possibleTypes, sites', used')
      && SelectionCompiles(schema, convert, nodes[i], parentType, compiled.value)
      && LevelSpreadName(compiled.value) == (if nodes[i].FragmentSpreadNode? then [nodes[i].name] else [])
    requires nodes[i].FragmentSpreadNode? ==>
      && visited' == visited + {nodes[i].name}
      && (compiled.None? <==> nodes[i].name in visited)
    requires !nodes[i].FragmentSpreadNode? ==> visited' == visited && compiled.Some?
    requires compiled.None? ==> wrapped.None?
    requires compiled.Some? ==> ApplyDirectives(compiled.value, nodes[i].directives, possibleTypes) == Ok(wrapped)
    ensures wrapped.None? <==> Dropped(nodes, i)
    ensures !NodeFails(schema, nodes, i, parentType)
    ensures wrapped.Some? ==>
      && Kept(schema, convert, nodes[i], parentType, possibleTypes, wrapped.value)
      && SelectionOK(schema, wrapped.value, parentType, possibleTypes, sites', used')
      && visited <= visited'
      && (LevelSpreadName(wrapped.value) == [] ||
          (|LevelSpreadName(wrapped.value)| == 1 && LevelSpreadName(wrapped.value)[0] !in visited
           && LevelSpreadName(wrapped.value)[0] in visited'))
  {
    assert compiled.None? <==> Elided(nodes, i);
    if wrapped.Some? {
      ApplyDirectivesPreserves(schema, compiled.value, nodes[i].directives, parentType, possibleTypes, sites', used');
      assert Unwrap(compiled.value) == compiled.value;
    }
  }

  /**
   * One AST selection compiled and rewritten: `compiled` is what
   * `compileSelection` gave (none for an elided spread) and `wrapped` what its
   * directives made of it. The level stays as `LevelOK` says, growing by
   * `wrapped` when there is one.
   */
  lemma LevelStep(schema: Schema, convert: ValueNode -> Value, nodes: seq<SelectionNode>, i: nat, parentType: NamedType, possibleTypes: seq<NamedType>,
                  selections: seq<Selection>, origin: seq<nat>, visited: set<string>,
                  sites: seq<SpreadRecord>, used: set<NamedType>,
                  visited': set<string>, sites': seq<SpreadRecord>, used': set<NamedType>,
                  compiled: Option<Selection>, wrapped: Option<Selection>)
    requires i < |nodes|
    requires LevelOK(schema, convert, nodes, i, parentType, possibleTypes, selections, origin, visited, sites, used)
    requires IsPrefix(sites, sites') && used <= used'
    requires !CompileFails(schema, nodes[i], parentType)
    requires compiled.Some? ==>
      && SelectionOK(schema, compiled.value, parentType, possibleTypes, sites', used')
      && SelectionCompiles(schema, convert, nodes[i], parentType, compiled.value)
      && LevelSpreadName(compiled.value) == (if nodes[i].FragmentSpreadNode? then [nodes[i].name] else [])
    requires nodes[i].FragmentSpreadNode? ==>
      && visited' == visited + {nodes[i].name}
      && (compiled.None? <==> nodes[i].name in visited)
    requires !nodes[i].FragmentSpreadNode? ==> visited' == visited && compiled.Some?
    requires compiled.None? ==> wrapped.None?
    requires compiled.Some? ==> ApplyDirectives(compiled.value, nodes[i].directives, possibleTypes) == Ok(wrapped)
    ensures wrapped.None? ==>
      LevelOK(schema, convert, nodes, i + 1, parentType, possibleTypes, selections, origin, visited', sites', used')
    ensures wrapped.Some? ==>
      LevelOK(schema, convert, nodes, i + 1, parentType, possibleTypes, selections + [wrapped.value], origin + [i], visited', sites', used')
  {
    VisitedStep(nodes, i, visited, visited');
    StepFacts(schema, convert, nodes, i, parentType, possibleTypes, visited, visited', sites', used', compiled, wrapped);
    WellFormedStep(schema, parentType, possibleTypes, selections, visited, sites, used, visited', sites', used', wrapped);
    FaithfulStep(schema, convert, nodes, i, parentType, possibleTypes, selections, origin, wrapped);
  }

  /** The variables of an operation, as name and type, in declaration order. */
  function VariablesFromAST(definitions: seq<VariableDefinitionNode>): (r: seq<VariableDefinition>)
    ensures |r| == |definitions|
    ensures forall i :: 0 <= i < |r| ==> r[i].name == definitions[i].name && r[i].variableType == definitions[i].variableType
  {
    if definitions == [] then []
    else VariablesFromAST(definitions[..|definitions| - 1])
         + [VariableDefinition(definitions[|definitions| - 1].name, definitions[|definitions| - 1].variableType)]
  }

  predicate AllPlaceholders(spreads: seq<SpreadRecord>) {
    forall s | s in spreads :: s == Placeholder(s.fragmentName, s.selectionSet.possibleTypes)
  }

  class Compiler {
    const schema: Schema
    /** `valueFromValueNode`, the conversion of argument literals, which is not part of this model. */
    const valueFromValueNode: ValueNode -> Value
    var unresolvedFragmentSpreads: seq<SpreadRecord>
    /** The insertion-ordered set `typesUsedSet`. */
    var typesUsedSet: seq<NamedType>

    ghost predicate TypesUsedInvariant(walking: set<NamedType>)
      reads this
    {
      TypesUsedOK(schema, typesUsedSet, walking)
    }

    /** The recorded types are closed, and every pending spread is still an unpatched placeholder. */
    ghost predicate Valid()
      reads this
    {
      && TypesUsedInvariant({})
      && AllPlaceholders(unresolvedFragmentSpreads)
    }

    constructor(schema: Schema, valueFromValueNode: ValueNode -> Value)
      ensures Valid()
      ensures this.schema == schema && this.valueFromValueNode == valueFromValueNode
      ensures unresolvedFragmentSpreads == [] && typesUsedSet == []
    {
      this.schema := schema;
      this.valueFromValueNode := valueFromValueNode;
      unresolvedFragmentSpreads := [];
      typesUsedSet := [];
    }

    ghost function Unrecorded(): nat
      reads this
    {
      |InputObjectTypes(schema) - Elems(typesUsedSet)|
    }

    /**
     * `addTypeUsed`: records an enum, input object or custom scalar once, at
     * the end, and walks the fields of an input object after recording it, so
     * that an input object referring to itself is walked once. `walking` holds
     * the input objects whose fields are being walked further up the call
     * chain; all others stay closed under their field types.
     */
    method AddTypeUsed(t: NamedType, ghost walking: set<NamedType>)
      requires TypesUsedInvariant(walking)
      modifies this
      decreases Unrecorded(), 1
      ensures TypesUsedInvariant(walking)
      ensures IsPrefix(old(typesUsedSet), typesUsedSet)
      ensures IsRecordedType(t) ==> t in typesUsedSet
      ensures !IsRecordedType(t) ==> typesUsedSet == old(typesUsedSet)
      ensures t in old(typesUsedSet) ==> typesUsedSet == old(typesUsedSet)
      ensures |typesUsedSet| > |old(typesUsedSet)| ==> typesUsedSet[|old(typesUsedSet)|] == t
      ensures forall j | |old(typesUsedSet)| < j < |typesUsedSet| :: Justified(schema, typesUsedSet, |old(typesUsedSet)|, j)
      ensures unresolvedFragmentSpreads == old(unresolvedFragmentSpreads)
    {
      if t in typesUsedSet {
        return;
      }
      if IsRecordedType(t) {
        RecordForWalk(schema, typesUsedSet, walking, t);
        typesUsedSet := typesUsedSet + [t];
        assert t.kind != InputObjectKind ==> TypesUsedOK(schema, typesUsedSet, walking) by {
          if t.kind != InputObjectKind {
            assert forall u | u in typesUsedSet && u !in walking && u != t :: u !in walking + {t};
          }
        }
      }
      if t.kind == InputObjectKind {
        WalkInputFields(t, walking, old(typesUsedSet));
        assert typesUsedSet[|old(typesUsedSet)|] == (old(typesUsedSet) + [t])[|old(typesUsedSet)|];
      }
    }

    /** The loop of `addTypeUsed` over the field types of the input object `t`, just recorded after `entry`. */
    method WalkInputFields(t: NamedType, ghost walking: set<NamedType>, ghost entry: seq<NamedType>)
      requires t.kind == InputObjectKind && t !in entry
      requires TypesUsedInvariant(walking + {t}) && typesUsedSet == entry + [t]
      modifies this
      decreases |InputObjectTypes(schema) - Elems(entry)|, 0
      ensures TypesUsedInvariant(walking)
      ensures IsPrefix(entry + [t], typesUsedSet)
      ensures forall j | |entry| < j < |typesUsedSet| :: Justified(schema, typesUsedSet, |entry|, j)
      ensures unresolvedFragmentSpreads == old(unresolvedFragmentSpreads)
    {
      var fields := InputFieldTypes(schema, t);
      for i := 0 to |fields|
        invariant TypesUsedInvariant(walking + {t})
        invariant IsPrefix(entry + [t], typesUsedSet)
        invariant forall j :: 0 <= j < i && IsRecordedType(GetNamedType(fields[j])) ==> GetNamedType(fields[j]) in typesUsedSet
        invariant unresolvedFragmentSpreads == old(unresolvedFragmentSpreads)
        invariant forall j | |entry| < j < |typesUsedSet| :: Justified(schema, typesUsedSet, |entry|, j)
      {
        ghost var before := typesUsedSet;
        WalkShrinksMeasure(schema, entry, t, typesUsedSet);
        AddTypeUsed(GetNamedType(fields[i]), walking + {t});
        PrefixTransitive(entry + [t], before, typesUsedSet);
        FieldTypesStayRecorded(fields, i, before, typesUsedSet);
        PrefixAt(entry + [t], before, |entry|);
        assert fields[i] in InputFieldTypes(schema, t);
        JustifiedStep(schema, before, typesUsedSet, |entry|);
      }
      FieldsWalked(schema, typesUsedSet, walking, t, fields);
    }

    /**
     * `compileSelectionSet`: compiles the selections in source order with one
     * visited-fragments set for this level, rewrites each by its directives and
     * leaves out those that come to nothing. It fails exactly when one of the
     * selections does; otherwise the result holds the surviving selections in
     * source order, and a placeholder was pushed for every fragment spread the
     * walk met.
     */
    method CompileSelectionSet(selectionSetNode: SelectionSetNode, parentType: NamedType, possibleTypes: seq<NamedType>)
      returns (r: Result<SelectionSet, CompileError>)
      requires Valid()
      modifies this
      decreases selectionSetNode, 4
      ensures Valid()
      ensures IsPrefix(old(unresolvedFragmentSpreads), unresolvedFragmentSpreads)
      ensures IsPrefix(old(typesUsedSet), typesUsedSet)
      ensures r.Err? <==> SetFails(schema, selectionSetNode, parentType)
      ensures r.Err? ==> r.error == SetError(schema, selectionSetNode, parentType)
      ensures r.Ok? ==> r.value.possibleTypes == possibleTypes
      ensures r.Ok? ==> SetCompiles(schema, valueFromValueNode, selectionSetNode, parentType, r.value)
      ensures r.Ok? ==> SelectionSetOK(schema, r.value, parentType, unresolvedFragmentSpreads, Elems(typesUsedSet))
      ensures r.Ok? ==> forall n :: Pushed(unresolvedFragmentSpreads, |old(unresolvedFragmentSpreads)|, n) <==>
        SpreadInSet(schema, selectionSetNode, parentType, n)
      ensures r.Ok? ==>
        PushedInOrder(unresolvedFragmentSpreads, |old(unresolvedFragmentSpreads)|, SetSpreadOrder(schema, selectionSetNode, parentType))
      ensures r.Ok? ==> forall t | TypeInSet(schema, selectionSetNode, parentType, t) && IsRecordedType(t) :: t in typesUsedSet
    {
      var error, selections, origin, visitedFragments := CompileSelections(selectionSetNode, parentType, possibleTypes);
      if error.Some? {
        return Err(error.value);
      }
      LevelDone(schema, valueFromValueNode, selectionSetNode, parentType, possibleTypes, selections, origin, visitedFragments,
                unresolvedFragmentSpreads, Elems(typesUsedSet), |old(unresolvedFragmentSpreads)|);
      RecordedDone(schema, selectionSetNode, parentType, typesUsedSet);
      return Ok(SelectionSet(possibleTypes, selections));
    }

    /**
     * The loop of `compileSelectionSet`: each AST selection of the level in
     * order, stopping at the first that fails.
     */
    method CompileSelections(selectionSetNode: SelectionSetNode, parentType: NamedType, possibleTypes: seq<NamedType>)
      returns (error: Option<CompileError>, selections: seq<Selection>, ghost origin: seq<nat>, visitedFragments: set<string>)
      requires Valid()
      modifies this
      decreases selectionSetNode, 3
      ensures Valid()
      ensures IsPrefix(old(unresolvedFragmentSpreads), unresolvedFragmentSpreads)
      ensures IsPrefix(old(typesUsedSet), typesUsedSet)
      ensures error.Some? ==> SetFails(schema, selectionSetNode, parentType) && error.value == SetError(schema, selectionSetNode, parentType)
      ensures error.None? ==> var nodes, start := selectionSetNode.selections, |old(unresolvedFragmentSpreads)|;
        && LevelOK(schema, valueFromValueNode, nodes, |nodes|, parentType, possibleTypes, selections, origin, visitedFragments,
                   unresolvedFragmentSpreads, Elems(typesUsedSet))
        && LevelTracked(schema, selectionSetNode, |nodes|, parentType, start, unresolvedFragmentSpreads, typesUsedSet)
    {
      var nodes := selectionSetNode.selections;
      selections, origin, visitedFragments := [], [], {};
      ghost var start := |unresolvedFragmentSpreads|;
      for i := 0 to |nodes|
        invariant Valid()
        invariant IsPrefix(old(unresolvedFragmentSpreads), unresolvedFragmentSpreads)
        invariant IsPrefix(old(typesUsedSet), typesUsedSet)
        invariant LevelOK(schema, valueFromValueNode, nodes, i, parentType, possibleTypes, selections, origin, visitedFragments,
                          unresolvedFragmentSpreads, Elems(typesUsedSet))
        invariant LevelTracked(schema, selectionSetNode, i, parentType, start, unresolvedFragmentSpreads, typesUsedSet)
      {
        ghost var sitesBefore, usedBefore := unresolvedFragmentSpreads, typesUsedSet;
        var wrapped, visitedAfter := CompileLevelSelection(selectionSetNode, i, parentType, possibleTypes,
                                                           selections, origin, visitedFragments, start);
        PrefixTransitive(old(unresolvedFragmentSpreads), sitesBefore, unresolvedFragmentSpreads);
        PrefixTransitive(old(typesUsedSet), usedBefore, typesUsedSet);
        if wrapped.Err? {
          SetErrorAt(schema, selectionSetNode, parentType, i);
          return Some(wrapped.error), selections, origin, visitedFragments;
        }
        if wrapped.value.Some? {
          selections := selections + [wrapped.value.value];
          origin := origin + [i];
        }
        visitedFragments := visitedAfter;
      }
      error := None;
    }

    /**
     * One turn of the loop of `compileSelectionSet`: the `i`-th selection is
     * compiled with the level's visited fragments and rewritten by its
     * directives, giving the selection the level gains, if any.
     */
    method CompileLevelSelection(selectionSetNode: SelectionSetNode, i: nat, parentType: NamedType, possibleTypes: seq<NamedType>,
                                 ghost selections: seq<Selection>, ghost origin: seq<nat>, visitedFragments: set<string>,
                                 ghost start: nat)
      returns (r: Result<Option<Selection>, CompileError>, visitedAfter: set<string>)
      requires Valid() && i < |selectionSetNode.selections|
      requires LevelOK(schema, valueFromValueNode, selectionSetNode.selections, i, parentType, possibleTypes, selections, origin, visitedFragments,
                       unresolvedFragmentSpreads, Elems(typesUsedSet))
      requires LevelTracked(schema, selectionSetNode, i, parentType, start, unresolvedFragmentSpreads, typesUsedSet)
      modifies this
      decreases selectionSetNode, 2
      ensures Valid()
      ensures IsPrefix(old(unresolvedFragmentSpreads), unresolvedFragmentSpreads)
      ensures IsPrefix(old(typesUsedSet), typesUsedSet)
      ensures r.Err? ==> SetFails(schema, selectionSetNode, parentType)
      ensures r.Err? ==>
        NodeFails(schema, selectionSetNode.selections, i, parentType)
        && r.error == NodeError(schema, selectionSetNode.selections, i, parentType)
      ensures r.Ok? ==> LevelTracked(schema, selectionSetNode, i + 1, parentType, start, unresolvedFragmentSpreads, typesUsedSet)
      ensures r.Ok? && r.value.None? ==>
        LevelOK(schema, valueFromValueNode, selectionSetNode.selections, i + 1, parentType, possibleTypes, selections, origin, visitedAfter,
                unresolvedFragmentSpreads, Elems(typesUsedSet))
      ensures r.Ok? && r.value.Some? ==>
        LevelOK(schema, valueFromValueNode, selectionSetNode.selections, i + 1, parentType, possibleTypes, selections + [r.value.value], origin + [i],
                visitedAfter, unresolvedFragmentSpreads, Elems(typesUsedSet))
    {
      var nodes := selectionSetNode.selections;
      ghost var sitesBefore, usedBefore := unresolvedFragmentSpreads, typesUsedSet;
      var compiled;
      compiled, visitedAfter := CompileSelection(nodes[i], parentType, possibleTypes, visitedFragments);
      if compiled.Err? {
        FailsAt(schema, selectionSetNode, i, parentType);
        return Err(compiled.error), visitedAfter;
      }
      PrefixElems(usedBefore, typesUsedSet);
      RecordedStep(schema, nodes, i, parentType, usedBefore, typesUsedSet);
      OrderStep(schema, selectionSetNode, i, parentType, start, sitesBefore, unresolvedFragmentSpreads, visitedFragments);
      r := WrapInBooleanConditionsIfNeeded(compiled.value, nodes[i], possibleTypes);
      if r.Err? {
        DirectivesFailAt(schema, selectionSetNode, i, parentType, possibleTypes, visitedFragments, compiled.value, r);
        return;
      }
      PushStep(schema, nodes, i, parentType, start, sitesBefore, unresolvedFragmentSpreads, visitedFragments);
      LevelStep(schema, valueFromValueNode, nodes, i, parentType, possibleTypes, selections, origin, visitedFragments,
                sitesBefore, Elems(usedBefore), visitedAfter, unresolvedFragmentSpreads, Elems(typesUsedSet),
                compiled.value, r.value);
    }

    /**
     * `compileSelection`: a field is compiled by `CompileField`. An inline
     * fragment narrows the enclosing possible types to those of its type
     * condition (the parent type when it has none). A spread of a fragment
     * already visited at this level is elided; otherwise a placeholder is pushed.
     */
    method CompileSelection(selectionNode: SelectionNode, parentType: NamedType, possibleTypes: seq<NamedType>,
                            visitedFragments: set<string>)
      returns (r: Result<Option<Selection>, CompileError>, visitedAfter: set<string>)
      requires Valid()
      modifies this
      decreases selectionNode, 2
      ensures Valid()
      ensures IsPrefix(old(unresolvedFragmentSpreads), unresolvedFragmentSpreads)
      ensures IsPrefix(old(typesUsedSet), typesUsedSet)
      ensures r.Err? <==> CompileFails(schema, selectionNode, parentType)
      ensures r.Err? ==> r.error == SelectionError(schema, selectionNode, parentType)
      ensures r.Ok? && r.value.Some? ==>
        && SelectionOK(schema, r.value.value, parentType, possibleTypes, unresolvedFragmentSpreads, Elems(typesUsedSet))
        && SelectionCompiles(schema, valueFromValueNode, selectionNode, parentType, r.value.value)
        && LevelSpreadName(r.value.value) == (if selectionNode.FragmentSpreadNode? then [selectionNode.name] else [])
      ensures r.Ok? ==> forall n :: Pushed(unresolvedFragmentSpreads, |old(unresolvedFragmentSpreads)|, n) <==>
        SpreadIn(schema, selectionNode, parentType, n) && !(selectionNode.FragmentSpreadNode? && selectionNode.name in visitedFragments)
      ensures r.Ok? ==> PushedInOrder(unresolvedFragmentSpreads, |old(unresolvedFragmentSpreads)|,
        if selectionNode.FragmentSpreadNode? && selectionNode.name in visitedFragments then []
        else SpreadOrder(schema, selectionNode, parentType))
      ensures r.Ok? ==> forall t | TypeIn(schema, selectionNode, parentType, t) && IsRecordedType(t) :: t in typesUsedSet
      // fragment spreads
      ensures selectionNode.FragmentSpreadNode? ==>
        && visitedAfter == visitedFragments + {selectionNode.name}
        && (selectionNode.name in visitedFragments ==>
              r == Ok(None) && unresolvedFragmentSpreads == old(unresolvedFragmentSpreads))
        && (selectionNode.name !in visitedFragments ==>
              && r == Ok(Some(FragmentSpread(selectionNode.name, |old(unresolvedFragmentSpreads)|)))
              && unresolvedFragmentSpreads == old(unresolvedFragmentSpreads) + [Placeholder(selectionNode.name, possibleTypes)])
      ensures !selectionNode.FragmentSpreadNode? ==> visitedAfter == visitedFragments && (r.Ok? ==> r.value.Some?)
    {
      visitedAfter := visitedFragments;
      match selectionNode {
        case FieldNode(_, _, _, _, _) =>
          r := CompileField(selectionNode, parentType, possibleTypes);
        case InlineFragmentNode(typeCondition, _, inlineSelectionSet) =>
          var conditionType := ConditionType(typeCondition, parentType);
          var possibleTypesForTypeCondition := InlineFragmentPossibleTypes(schema, conditionType, possibleTypes);
          var inner := CompileSelectionSet(inlineSelectionSet, conditionType, possibleTypesForTypeCondition);
          if inner.Err? {
            return Err(inner.error), visitedAfter;
          }
          return Ok(Some(TypeCondition(conditionType, inner.value))), visitedAfter;
        case FragmentSpreadNode(fragmentName, _) =>
          if fragmentName in visitedFragments {
            return Ok(None), visitedAfter;
          }
          visitedAfter := visitedFragments + {fragmentName};
          var slot := |unresolvedFragmentSpreads|;
          unresolvedFragmentSpreads := unresolvedFragmentSpreads + [Placeholder(fragmentName, possibleTypes)];
          assert unresolvedFragmentSpreads[slot].fragmentName == fragmentName;
          return Ok(Some(FragmentSpread(fragmentName, slot))), visitedAfter;
      }
    }

    /**
     * The field case of `compileSelection`: the field is looked up on the
     * parent type and its named type recorded; a composite field must have a
     * nested selection set, compiled afresh for the field's own possible types.
     * The compiled field carries the arguments when there are any, the schema's
     * description unless the field is a meta field, and the schema's
     * deprecation.
     */
    method CompileField(selectionNode: SelectionNode, parentType: NamedType, possibleTypes: seq<NamedType>)
      returns (r: Result<Option<Selection>, CompileError>)
      requires selectionNode.FieldNode? && Valid()
      modifies this
      decreases selectionNode, 1
      ensures Valid()
      ensures IsPrefix(old(unresolvedFragmentSpreads), unresolvedFragmentSpreads)
      ensures IsPrefix(old(typesUsedSet), typesUsedSet)
      ensures r.Err? <==> CompileFails(schema, selectionNode, parentType)
      ensures r.Err? ==> r.error == SelectionError(schema, selectionNode, parentType)
      ensures r.Ok? ==> r.value.Some?
      ensures r.Ok? ==>
        && SelectionOK(schema, r.value.value, parentType, possibleTypes, unresolvedFragmentSpreads, Elems(typesUsedSet))
        && SelectionCompiles(schema, valueFromValueNode, selectionNode, parentType, r.value.value)
        && LevelSpreadName(r.value.value) == []
      ensures r.Ok? ==> forall n :: Pushed(unresolvedFragmentSpreads, |old(unresolvedFragmentSpreads)|, n) <==>
        SpreadIn(schema, selectionNode, parentType, n)
      ensures r.Ok? ==> PushedInOrder(unresolvedFragmentSpreads, |old(unresolvedFragmentSpreads)|, SpreadOrder(schema, selectionNode, parentType))
      ensures r.Ok? ==> forall t | TypeIn(schema, selectionNode, parentType, t) && IsRecordedType(t) :: t in typesUsedSet
      ensures GetFieldDef(schema, parentType, selectionNode.name).None? ==>
        r == Err(UnknownField(selectionNode.name, parentType.name))
      ensures GetFieldDef(schema, parentType, selectionNode.name).Some? ==>
        var named := GetNamedType(GetFieldDef(schema, parentType, selectionNode.name).value.fieldType);
        && (IsRecordedType(named) ==> named in typesUsedSet)
        && (IsCompositeType(named) && selectionNode.selectionSet.None? ==>
              r == Err(MissingSelectionSet(selectionNode.name, parentType.name)))
      ensures r.Ok? ==>
        FieldFrom(valueFromValueNode, selectionNode, GetFieldDef(schema, parentType, selectionNode.name).value, r.value.value.field)
    {
      var FieldNode(alias, name, arguments, directives, selectionSetNode) := selectionNode;
      var hasOperationExclusiveDirectives := HasOperationExclusiveDirectives(directives);
      var args := if |arguments| > 0 then Some(ArgumentsFromAST(valueFromValueNode, arguments)) else None;
      var fieldDef := GetFieldDef(schema, parentType, name);
      if fieldDef.None? {
        return Err(UnknownField(name, parentType.name));
      }
      var fieldType := fieldDef.value.fieldType;
      var unmodifiedFieldType := GetNamedType(fieldType);
      AddTypeUsed(unmodifiedFieldType, {});
      var responseKey := OrElse(alias, name);
      var description := fieldDef.value.description;
      var field := CompiledField(
        responseKey, name, alias, args, fieldType,
        if !IsMetaFieldName(name) && description.Some? && description.value != "" then description else None,
        fieldDef.value.isDeprecated, fieldDef.value.deprecationReason,
        hasOperationExclusiveDirectives, None);
      ghost var usedMid := typesUsedSet;
      r := CompleteField(selectionNode, field, parentType, possibleTypes);
      PrefixTransitive(old(typesUsedSet), usedMid, typesUsedSet);
      PrefixElems(usedMid, typesUsedSet);
    }

    /**
     * The end of the field case of `compileSelection`: a composite field gets
     * its nested selection set, compiled for the field's own possible types
     * with visited fragments of its own; any other field is complete as it is.
     */
    method CompleteField(selectionNode: SelectionNode, field: CompiledField, parentType: NamedType, possibleTypes: seq<NamedType>)
      returns (r: Result<Option<Selection>, CompileError>)
      requires selectionNode.FieldNode? && Valid()
      requires field.selectionSet.None? && field.name == selectionNode.name && field.alias == selectionNode.alias
      requires GetFieldDef(schema, parentType, field.name).Some?
      requires field.fieldType == GetFieldDef(schema, parentType, field.name).value.fieldType
      requires field.responseKey == OrElse(field.alias, field.name)
      requires IsRecordedType(GetNamedType(field.fieldType)) ==> GetNamedType(field.fieldType) in typesUsedSet
      requires FieldFrom(valueFromValueNode, selectionNode, GetFieldDef(schema, parentType, field.name).value, field)
      modifies this
      decreases selectionNode, 0
      ensures Valid()
      ensures IsPrefix(old(unresolvedFragmentSpreads), unresolvedFragmentSpreads)
      ensures IsPrefix(old(typesUsedSet), typesUsedSet)
      ensures r.Err? <==>
        var named := GetNamedType(field.fieldType);
        IsCompositeType(named) && (selectionNode.selectionSet.None? || SetFails(schema, selectionNode.selectionSet.value, named))
      ensures IsCompositeType(GetNamedType(field.fieldType)) && selectionNode.selectionSet.None? ==>
        r == Err(MissingSelectionSet(field.name, parentType.name))
      ensures r.Err? && selectionNode.selectionSet.Some? ==>
        r.error == SetError(schema, selectionNode.selectionSet.value, GetNamedType(field.fieldType))
      ensures r.Ok? ==>
        && r.value.Some? && r.value.value.Field?
        && r.value.value.field == field.(selectionSet := r.value.value.field.selectionSet)
        && SelectionOK(schema, r.value.value, parentType, possibleTypes, unresolvedFragmentSpreads, Elems(typesUsedSet))
        && SelectionCompiles(schema, valueFromValueNode, selectionNode, parentType, r.value.value)
      ensures r.Ok? ==> forall n :: Pushed(unresolvedFragmentSpreads, |old(unresolvedFragmentSpreads)|, n) <==>
        SpreadIn(schema, selectionNode, parentType, n)
      ensures r.Ok? ==> PushedInOrder(unresolvedFragmentSpreads, |old(unresolvedFragmentSpreads)|, SpreadOrder(schema, selectionNode, parentType))
      ensures r.Ok? ==> forall t | TypeIn(schema, selectionNode, parentType, t) && IsRecordedType(t) :: t in typesUsedSet
    {
      var named := GetNamedType(field.fieldType);
      if !IsCompositeType(named) {
        return Ok(Some(Field(field)));
      }
      if selectionNode.selectionSet.None? {
        return Err(MissingSelectionSet(field.name, parentType.name));
      }
      ghost var sitesBefore, usedBefore := unresolvedFragmentSpreads, typesUsedSet;
      var nested := CompileSelectionSet(selectionNode.selectionSet.value, named, PossibleTypesForType(schema, named));
      if nested.Err? {
        return Err(nested.error);
      }
      PrefixElems(usedBefore, typesUsedSet);
      return Ok(Some(Field(field.(selectionSet := Some(nested.value)))));
    }

    /**
     * `compileOperation`: an unnamed operation is rejected; the variables are
     * taken in order and each variable's named type recorded; the selection
     * set is compiled against the root type of the operation's kind.
     */
    method CompileOperation(definition: DefinitionNode) returns (r: Result<CompiledOperation, CompileError>)
      requires definition.OperationDefinition?
      requires Valid()
      modifies this
      ensures Valid()
      ensures IsPrefix(old(unresolvedFragmentSpreads), unresolvedFragmentSpreads)
      ensures IsPrefix(old(typesUsedSet), typesUsedSet)
      ensures r.Err? <==> DefinitionFails(schema, definition)
      ensures r.Err? ==> r.error == DefinitionError(schema, definition)
      ensures definition.name.None? ==> r == Err(UnnamedOperation)
      ensures definition.name.Some? && definition.operation !in schema.rootTypes ==> r == Err(MissingRootType(definition.operation))
      ensures r.Ok? ==>
        && definition.name.Some?
        && definition.operation in schema.rootTypes
        && r.value.operationName == definition.name.value
        && r.value.operationType == definition.operation
        && r.value.filePath == definition.filePath
        && r.value.source == definition.printed
        && r.value.variables == VariablesFromAST(definition.variableDefinitions)
        && (forall v | v in definition.variableDefinitions && IsRecordedType(GetNamedType(v.variableType)) ::
              GetNamedType(v.variableType) in typesUsedSet)
        && r.value.rootType == schema.rootTypes[definition.operation]
        && r.value.selectionSet.possibleTypes == PossibleTypesForType(schema, r.value.rootType)
        && SelectionSetOK(schema, r.value.selectionSet, r.value.rootType, unresolvedFragmentSpreads, Elems(typesUsedSet))
        && SetCompiles(schema, valueFromValueNode, definition.selectionSet, r.value.rootType, r.value.selectionSet)
      ensures r.Ok? ==> forall n :: Pushed(unresolvedFragmentSpreads, |old(unresolvedFragmentSpreads)|, n) <==>
        SpreadInDefinition(schema, definition, n)
      ensures r.Ok? ==> PushedInOrder(unresolvedFragmentSpreads, |old(unresolvedFragmentSpreads)|, DefinitionSpreadOrder(schema, definition))
      ensures r.Ok? ==> forall t | TypeInDefinition(schema, definition, t) && IsRecordedType(t) :: t in typesUsedSet
    {
      if definition.name.None? {
        return Err(UnnamedOperation);
      }
      var variables := CompileVariables(definition.variableDefinitions);
      if definition.operation !in schema.rootTypes {
        return Err(MissingRootType(definition.operation));
      }
      var rootType := schema.rootTypes[definition.operation];
      ghost var usedBefore := typesUsedSet;
      var selectionSet := CompileSelectionSet(definition.selectionSet, rootType, PossibleTypesForType(schema, rootType));
      if selectionSet.Err? {
        return Err(selectionSet.error);
      }
      assert typesUsedSet[..|usedBefore|] == usedBefore;
      return Ok(CompiledOperation(definition.filePath, definition.name.value, definition.operation, variables,
                                  definition.printed, rootType, selectionSet.value));
    }

    /** The variables of `compileOperation`, in order, each variable's named type recorded. */
    method CompileVariables(definitions: seq<VariableDefinitionNode>) returns (variables: seq<VariableDefinition>)
      requires Valid()
      modifies this
      ensures Valid()
      ensures unresolvedFragmentSpreads == old(unresolvedFragmentSpreads)
      ensures IsPrefix(old(typesUsedSet), typesUsedSet)
      ensures variables == VariablesFromAST(definitions)
      ensures forall v | v in definitions && IsRecordedType(GetNamedType(v.variableType)) :: GetNamedType(v.variableType) in typesUsedSet
    {
      variables := [];
      for i := 0 to |definitions|
        invariant Valid()
        invariant unresolvedFragmentSpreads == old(unresolvedFragmentSpreads)
        invariant IsPrefix(old(typesUsedSet), typesUsedSet)
        invariant variables == VariablesFromAST(definitions[..i])
        invariant forall k | 0 <= k < i && IsRecordedType(GetNamedType(definitions[k].variableType)) ::
          GetNamedType(definitions[k].variableType) in typesUsedSet
      {
        ghost var usedBefore := typesUsedSet;
        AddTypeUsed(GetNamedType(definitions[i].variableType), {});
        PrefixTransitive(old(typesUsedSet), usedBefore, typesUsedSet);
        VariableTypesStayRecorded(definitions, i, usedBefore, typesUsedSet);
        assert definitions[..i + 1][..i] == definitions[..i];
        variables := variables + [VariableDefinition(definitions[i].name, definitions[i].variableType)];
      }
      assert definitions[..|definitions|] == definitions;
    }

    /** `compileFragment`: the selection set is compiled against the fragment's type condition. */
    method CompileFragment(definition: DefinitionNode) returns (r: Result<CompiledFragment, CompileError>)
      requires definition.FragmentDefinition?
      requires Valid()
      modifies this
      ensures Valid()
      ensures IsPrefix(old(unresolvedFragmentSpreads), unresolvedFragmentSpreads)
      ensures IsPrefix(old(typesUsedSet), typesUsedSet)
      ensures r.Err? <==> DefinitionFails(schema, definition)
      ensures r.Err? ==> r.error == DefinitionError(schema, definition)
      ensures r.Ok? ==>
        && r.value.fragmentName == definition.fragmentName
        && r.value.filePath == definition.filePath
        && r.value.source == definition.printed
        && r.value.fragmentType == definition.typeCondition
        && r.value.selectionSet.possibleTypes == PossibleTypesForType(schema, definition.typeCondition)
        && SelectionSetOK(schema, r.value.selectionSet, definition.typeCondition, unresolvedFragmentSpreads, Elems(typesUsedSet))
        && SetCompiles(schema, valueFromValueNode, definition.selectionSet, definition.typeCondition, r.value.selectionSet)
      ensures r.Ok? ==> forall n :: Pushed(unresolvedFragmentSpreads, |old(unresolvedFragmentSpreads)|, n) <==>
        SpreadInDefinition(schema, definition, n)
      ensures r.Ok? ==> PushedInOrder(unresolvedFragmentSpreads, |old(unresolvedFragmentSpreads)|, DefinitionSpreadOrder(schema, definition))
      ensures r.Ok? ==> forall t | TypeInDefinition(schema, definition, t) && IsRecordedType(t) :: t in typesUsedSet
    {
      var fragmentType := definition.typeCondition;
      var selectionSet := CompileSelectionSet(definition.selectionSet, fragmentType, PossibleTypesForType(schema, fragmentType));
      if selectionSet.Err? {
        return Err(selectionSet.error);
      }
      return Ok(CompiledFragment(definition.fragmentName, definition.filePath, definition.printed, fragmentType, selectionSet.value));
    }
  }
}

/**
 * The second pass and the entry point of the compiler: `compileToIR` compiles
 * every operation and fragment of the document with one compiler, then patches
 * every pending spread with the fragment it names.
 */
module Compilation {
  import opened Wrappers
  import opened Seqs
  import opened GraphQL
  import opened Ast
  import opened RawIR
  import opened Compiler

  /**
   * The patched spread object: the fragment's selections, its possible types
   * narrowed to those possible where the spread stands, and conditional
   * exactly when that narrowing removed a type.
   */
  function ResolveSpread(fragment: CompiledFragment, spread: SpreadRecord): (r: SpreadRecord)
    ensures r.fragmentName == spread.fragmentName
    ensures r.selectionSet.selections == fragment.selectionSet.selections
    ensures forall t :: t in r.selectionSet.possibleTypes <==>
      t in fragment.selectionSet.possibleTypes && t in spread.selectionSet.possibleTypes
    ensures IsSubsequence(r.selectionSet.possibleTypes, fragment.selectionSet.possibleTypes)
    ensures r.isConditional == Some(r.selectionSet.possibleTypes != fragment.selectionSet.possibleTypes)
  {
    var fragmentTypes := fragment.selectionSet.possibleTypes;
    var spreadTypes := spread.selectionSet.possibleTypes;
    FilterKeepsAllIff(fragmentTypes, spreadTypes);
    SpreadRecord(spread.fragmentName,
                 SelectionSet(Filter(fragmentTypes, spreadTypes), fragment.selectionSet.selections),
                 Some(exists t | t in fragmentTypes :: t !in spreadTypes))
  }

  /**
   * The loop of `compileToIR` over the pending spreads: each is patched in
   * place from the fragment table, and the first spread of an unknown
   * fragment stops the compilation.
   */
  method ResolveFragmentSpreads(sites: seq<SpreadRecord>, fragments: seq<Entry<CompiledFragment>>)
    returns (r: Result<seq<SpreadRecord>, CompileError>)
    ensures r.Ok? <==> forall s | s in sites :: s.fragmentName in Keys(fragments)
    ensures r.Ok? ==> |r.value| == |sites|
    ensures r.Ok? ==>
      forall i | 0 <= i < |sites| :: r.value[i] == ResolveSpread(Get(fragments, sites[i].fragmentName).value, sites[i])
    ensures r.Err? ==> exists i | 0 <= i < |sites| ::
      && sites[i].fragmentName !in Keys(fragments)
      && (forall j | 0 <= j < i :: sites[j].fragmentName in Keys(fragments))
      && r.error == FragmentNotFound(sites[i].fragmentName)
  {
    var spreads := sites;
    for i := 0 to |sites|
      invariant |spreads| == |sites|
      invariant forall j | 0 <= j < i :: sites[j].fragmentName in Keys(fragments)
      invariant forall j | 0 <= j < i :: spreads[j] == ResolveSpread(Get(fragments, sites[j].fragmentName).value, sites[j])
      invariant forall j | i <= j < |sites| :: spreads[j] == sites[j]
    {
      assert spreads[i] == sites[i];
      var fragment := Get(fragments, spreads[i].fragmentName);
      if fragment.None? {
        assert sites[i].fragmentName !in Keys(fragments);
        return Err(FragmentNotFound(spreads[i].fragmentName));
      }
      assert sites[i].fragmentName in Keys(fragments);
      spreads := spreads[i := ResolveSpread(fragment.value, spreads[i])];
    }
    return Ok(spreads);
  }

  /** The document after the optional `__typename` pass, which is not part of this model. */
  function Prepared(document: seq<DefinitionNode>, options: Options, addTypename: seq<DefinitionNode> -> seq<DefinitionNode>): seq<DefinitionNode> {
    if options.addTypename then addTypename(document) else document
  }

  /** The operation definition of name `n` that is last among the first `k` definitions, if any. */
  function LastOperationNamed(doc: seq<DefinitionNode>, k: nat, n: string): (r: Option<nat>)
    requires k <= |doc|
    ensures r.Some? ==> r.value < k && doc[r.value].OperationDefinition? && doc[r.value].name == Some(n)
    ensures r.Some? ==> forall j | r.value < j < k :: !(doc[j].OperationDefinition? && doc[j].name == Some(n))
    ensures r.None? <==> forall j | 0 <= j < k :: !(doc[j].OperationDefinition? && doc[j].name == Some(n))
  {
    if k == 0 then None
    else if doc[k - 1].OperationDefinition? && doc[k - 1].name == Some(n) then Some(k - 1)
    else LastOperationNamed(doc, k - 1, n)
  }

  /** The fragment definition of name `n` that is last among the first `k` definitions, if any. */
  function LastFragmentNamed(doc: seq<DefinitionNode>, k: nat, n: string): (r: Option<nat>)
    requires k <= |doc|
    ensures r.Some? ==> r.value < k && doc[r.value].FragmentDefinition? && doc[r.value].fragmentName == n
    ensures r.Some? ==> forall j | r.value < j < k :: !(doc[j].FragmentDefinition? && doc[j].fragmentName == n)
    ensures r.None? <==> forall j | 0 <= j < k :: !(doc[j].FragmentDefinition? && doc[j].fragmentName == n)
  {
    if k == 0 then None
    else if doc[k - 1].FragmentDefinition? && doc[k - 1].fragmentName == n then Some(k - 1)
    else LastFragmentNamed(doc, k - 1, n)
  }

  /**
   * The operation table after the first `k` definitions: it holds exactly the
   * names of the operations among them, each with the last operation of that name.
   */
  ghost predicate OperationTableFrom(schema: Schema, convert: ValueNode -> Value, doc: seq<DefinitionNode>, k: nat, operations: seq<Entry<CompiledOperation>>)
    requires k <= |doc|
  {
    forall n :: (n in Keys(operations) <==> LastOperationNamed(doc, k, n).Some?) &&
      (n in Keys(operations) ==> OperationFrom(schema, convert, Get(operations, n).value, doc[LastOperationNamed(doc, k, n).value]))
  }

  /** The fragment table after the first `k` definitions, likewise. */
  ghost predicate FragmentTableFrom(schema: Schema, convert: ValueNode -> Value, doc: seq<DefinitionNode>, k: nat, fragments: seq<Entry<CompiledFragment>>)
    requires k <= |doc|
  {
    forall n :: (n in Keys(fragments) <==> LastFragmentNamed(doc, k, n).Some?) &&
      (n in Keys(fragments) ==> FragmentFrom(schema, convert, Get(fragments, n).value, doc[LastFragmentNamed(doc, k, n).value]))
  }

  /** None of the first `k` definitions fails to compile. */
  ghost predicate NoFailureBefore(schema: Schema, doc: seq<DefinitionNode>, k: int)
    requires 0 <= k <= |doc|
  {
    forall i | 0 <= i < k :: !DefinitionFails(schema, doc[i])
  }

  /** The error of the first failing definition from position `i` on. */
  ghost function DocumentErrorFrom(schema: Schema, doc: seq<DefinitionNode>, i: nat): CompileError
    requires exists k | i <= k < |doc| :: DefinitionFails(schema, doc[k])
    decreases |doc| - i
  {
    if DefinitionFails(schema, doc[i]) then DefinitionError(schema, doc[i]) else DocumentErrorFrom(schema, doc, i + 1)
  }

  /** From position `j` on, the first failing definition is the `k`-th. */
  lemma {:induction false} DocumentErrorAt(schema: Schema, doc: seq<DefinitionNode>, j: nat, k: nat)
    requires j <= k < |doc| && DefinitionFails(schema, doc[k])
    requires forall i | j <= i < k :: !DefinitionFails(schema, doc[i])
    ensures exists i | j <= i < |doc| :: DefinitionFails(schema, doc[i])
    ensures DocumentErrorFrom(schema, doc, j) == DefinitionError(schema, doc[k])
    decreases k - j
  {
    if j < k {
      DocumentErrorAt(schema, doc, j + 1, k);
    }
  }

  /** Some definition spreads a fragment that no definition of the document defines. */
  ghost predicate UnknownSpread(schema: Schema, doc: seq<DefinitionNode>) {
    exists i, n | 0 <= i < |doc| :: SpreadInDefinition(schema, doc[i], n) && LastFragmentNamed(doc, |doc|, n).None?
  }

  /** The placeholders hold exactly the fragments spread in the first `k` definitions. */
  ghost predicate PushedExactly(schema: Schema, doc: seq<DefinitionNode>, k: nat, sites: seq<SpreadRecord>)
    requires k <= |doc|
  {
    forall n :: Pushed(sites, 0, n) <==> exists i | 0 <= i < k :: SpreadInDefinition(schema, doc[i], n)
  }

  /** The fragment names the first pass pushes placeholders for over the first `k` definitions, in push order. */
  ghost function DocumentSpreadOrder(schema: Schema, doc: seq<DefinitionNode>, k: nat): seq<string>
    requires k <= |doc|
  {
    if k == 0 then [] else DocumentSpreadOrder(schema, doc, k - 1) + DefinitionSpreadOrder(schema, doc[k - 1])
  }

  /** Every recorded type named in the first `k` definitions is in `used`. */
  ghost predicate DocumentRecorded(schema: Schema, doc: seq<DefinitionNode>, k: nat, used: seq<NamedType>)
    requires k <= |doc|
  {
    forall i, t | 0 <= i < k && TypeInDefinition(schema, doc[i], t) && IsRecordedType(t) :: t in used
  }

  /** Recording the types of definition `k` on top of those of the first `k` keeps the earlier ones. */
  lemma DocumentRecordedStep(schema: Schema, doc: seq<DefinitionNode>, k: nat, used: seq<NamedType>, used': seq<NamedType>)
    requires k < |doc| && IsPrefix(used, used')
    requires DocumentRecorded(schema, doc, k, used)
    requires forall t | TypeInDefinition(schema, doc[k], t) && IsRecordedType(t) :: t in used'
    ensures DocumentRecorded(schema, doc, k + 1, used')
  {
    PrefixElems(used, used');
  }

  /** The first of `names` that no fragment definition of the document defines, if any. */
  function FirstUndefined(doc: seq<DefinitionNode>, names: seq<string>): (r: Option<string>)
    ensures r.Some? ==> r.value in names && LastFragmentNamed(doc, |doc|, r.value).None?
    ensures r.None? <==> forall n | n in names :: LastFragmentNamed(doc, |doc|, n).Some?
  {
    if names == [] then None
    else if LastFragmentNamed(doc, |doc|, names[0]).None? then Some(names[0])
    else FirstUndefined(doc, names[1..])
  }

  /** When `names[j]` is undefined and every name before it is defined, it is the first undefined name. */
  lemma {:induction false} FirstUndefinedAt(doc: seq<DefinitionNode>, names: seq<string>, j: nat)
    requires j < |names| && LastFragmentNamed(doc, |doc|, names[j]).None?
    requires forall l | 0 <= l < j :: LastFragmentNamed(doc, |doc|, names[l]).Some?
    ensures FirstUndefined(doc, names) == Some(names[j])
    decreases j
  {
    if j > 0 {
      FirstUndefinedAt(doc, names[1..], j - 1);
    }
  }

  /**
   * The first placeholder in push order naming no stored fragment names the
   * first fragment, in push order, that the document spreads and leaves undefined.
   */
  lemma FirstUnknownSite(schema: Schema, convert: ValueNode -> Value, doc: seq<DefinitionNode>, sites: seq<SpreadRecord>, fragments: seq<Entry<CompiledFragment>>, j: nat)
    requires FragmentTableFrom(schema, convert, doc, |doc|, fragments)
    requires PushedInOrder(sites, 0, DocumentSpreadOrder(schema, doc, |doc|))
    requires j < |sites| && sites[j].fragmentName !in Keys(fragments)
    requires forall l | 0 <= l < j :: sites[l].fragmentName in Keys(fragments)
    ensures FirstUndefined(doc, DocumentSpreadOrder(schema, doc, |doc|)) == Some(sites[j].fragmentName)
  {
    var names := DocumentSpreadOrder(schema, doc, |doc|);
    assert forall l | 0 <= l < j :: names[l] == sites[l].fragmentName;
    FirstUndefinedAt(doc, names, j);
  }

  /** When every placeholder names a stored fragment, no name in push order is undefined. */
  lemma AllSitesKnown(schema: Schema, convert: ValueNode -> Value, doc: seq<DefinitionNode>, sites: seq<SpreadRecord>, fragments: seq<Entry<CompiledFragment>>)
    requires FragmentTableFrom(schema, convert, doc, |doc|, fragments)
    requires PushedInOrder(sites, 0, DocumentSpreadOrder(schema, doc, |doc|))
    requires forall s | s in sites :: s.fragmentName in Keys(fragments)
    ensures FirstUndefined(doc, DocumentSpreadOrder(schema, doc, |doc|)).None?
  {
    var names := DocumentSpreadOrder(schema, doc, |doc|);
    forall n | n in names
      ensures LastFragmentNamed(doc, |doc|, n).Some?
    {
      var l :| 0 <= l < |names| && names[l] == n;
      assert sites[l] in sites;
    }
  }

  /** A placeholder naming no fragment of the table names a fragment spread in the document and defined nowhere in it. */
  lemma SpreadUnknown(schema: Schema, convert: ValueNode -> Value, doc: seq<DefinitionNode>, sites: seq<SpreadRecord>, fragments: seq<Entry<CompiledFragment>>, j: nat)
    requires FragmentTableFrom(schema, convert, doc, |doc|, fragments)
    requires PushedExactly(schema, doc, |doc|, sites)
    requires j < |sites| && sites[j].fragmentName !in Keys(fragments)
    ensures LastFragmentNamed(doc, |doc|, sites[j].fragmentName).None?
    ensures exists i | 0 <= i < |doc| :: SpreadInDefinition(schema, doc[i], sites[j].fragmentName)
    ensures UnknownSpread(schema, doc)
  {
    assert Pushed(sites, 0, sites[j].fragmentName);
  }

  /** When every placeholder names a fragment of the table, every fragment spread in the document is defined in it. */
  lemma SpreadsKnown(schema: Schema, convert: ValueNode -> Value, doc: seq<DefinitionNode>, sites: seq<SpreadRecord>, fragments: seq<Entry<CompiledFragment>>)
    requires FragmentTableFrom(schema, convert, doc, |doc|, fragments)
    requires PushedExactly(schema, doc, |doc|, sites)
    requires forall s | s in sites :: s.fragmentName in Keys(fragments)
    ensures !UnknownSpread(schema, doc)
  {
    forall i, n | 0 <= i < |doc| && SpreadInDefinition(schema, doc[i], n)
      ensures LastFragmentNamed(doc, |doc|, n).Some?
    {
      assert Pushed(sites, 0, n);
      var j :| 0 <= j < |sites| && sites[j].fragmentName == n;
      assert sites[j] in sites;
    }
  }

  /** The placeholders after one more definition are those for the fragments spread in the first `k + 1` definitions. */
  lemma DocumentPushStep(schema: Schema, doc: seq<DefinitionNode>, k: nat, sites: seq<SpreadRecord>, sites': seq<SpreadRecord>)
    requires k < |doc| && IsPrefix(sites, sites')
    requires PushedExactly(schema, doc, k, sites)
    requires forall n :: Pushed(sites', |sites|, n) <==> SpreadInDefinition(schema, doc[k], n)
    ensures PushedExactly(schema, doc, k + 1, sites')
  {
    PushedSplit(sites, sites', 0);
    forall n ensures Pushed(sites', 0, n) <==> exists i | 0 <= i < k + 1 :: SpreadInDefinition(schema, doc[i], n) {
      if exists i | 0 <= i < k + 1 :: SpreadInDefinition(schema, doc[i], n) {
        var i :| 0 <= i < k + 1 && SpreadInDefinition(schema, doc[i], n);
        if i < k {
          assert exists i | 0 <= i < k :: SpreadInDefinition(schema, doc[i], n);
        }
      }
    }
  }

  /**
   * Storing the operation compiled from definition `k` (or nothing, when
   * definition `k` is not an operation) extends the table to `k + 1` definitions.
   */
  lemma OperationTableStep(schema: Schema, convert: ValueNode -> Value, doc: seq<DefinitionNode>, k: nat, operations: seq<Entry<CompiledOperation>>,
                           op: Option<CompiledOperation>)
    requires k < |doc| && OperationTableFrom(schema, convert, doc, k, operations)
    requires op.None? <==> !doc[k].OperationDefinition?
    requires op.Some? ==> OperationFrom(schema, convert, op.value, doc[k])
    ensures op.None? ==> OperationTableFrom(schema, convert, doc, k + 1, operations)
    ensures op.Some? ==> OperationTableFrom(schema, convert, doc, k + 1, Put(operations, op.value.operationName, op.value))
  {
    if op.Some? {
      var m := op.value.operationName;
      var ops' := Put(operations, m, op.value);
      forall n ensures (n in Keys(ops') <==> LastOperationNamed(doc, k + 1, n).Some?) &&
        (n in Keys(ops') ==> OperationFrom(schema, convert, Get(ops', n).value, doc[LastOperationNamed(doc, k + 1, n).value]))
      {
        if n != m {
          assert LastOperationNamed(doc, k + 1, n) == LastOperationNamed(doc, k, n);
        }
      }
    }
  }

  lemma FragmentTableStep(schema: Schema, convert: ValueNode -> Value, doc: seq<DefinitionNode>, k: nat, fragments: seq<Entry<CompiledFragment>>, fragment: Option<CompiledFragment>)
    requires k < |doc| && FragmentTableFrom(schema, convert, doc, k, fragments)
    requires fragment.None? <==> !doc[k].FragmentDefinition?
    requires fragment.Some? ==> FragmentFrom(schema, convert, fragment.value, doc[k])
    ensures fragment.None? ==> FragmentTableFrom(schema, convert, doc, k + 1, fragments)
    ensures fragment.Some? ==> FragmentTableFrom(schema, convert, doc, k + 1, Put(fragments, fragment.value.fragmentName, fragment.value))
  {
    if fragment.Some? {
      var m := fragment.value.fragmentName;
      var fs' := Put(fragments, m, fragment.value);
      forall n ensures (n in Keys(fs') <==> LastFragmentNamed(doc, k + 1, n).Some?) &&
        (n in Keys(fs') ==> FragmentFrom(schema, convert, Get(fs', n).value, doc[LastFragmentNamed(doc, k + 1, n).value]))
      {
        if n != m {
          assert LastFragmentNamed(doc, k + 1, n) == LastFragmentNamed(doc, k, n);
        }
      }
    }
  }

  /** The compiled operation carries what its definition says, and its selection set is compiled from the definition's. */
  ghost predicate OperationFrom(schema: Schema, convert: ValueNode -> Value, op: CompiledOperation, definition: DefinitionNode) {
    && definition.OperationDefinition?
    && definition.name == Some(op.operationName)
    && op.operationType == definition.operation
    && op.filePath == definition.filePath
    && op.source == definition.printed
    && op.variables == VariablesFromAST(definition.variableDefinitions)
    && definition.operation in schema.rootTypes
    && op.rootType == schema.rootTypes[definition.operation]
    && SetCompiles(schema, convert, definition.selectionSet, op.rootType, op.selectionSet)
  }

  /** The compiled fragment carries what its definition says, and its selection set is compiled from the definition's. */
  ghost predicate FragmentFrom(schema: Schema, convert: ValueNode -> Value, fragment: CompiledFragment, definition: DefinitionNode) {
    && definition.FragmentDefinition?
    && fragment.fragmentName == definition.fragmentName
    && fragment.filePath == definition.filePath
    && fragment.source == definition.printed
    && fragment.fragmentType == definition.typeCondition
    && SetCompiles(schema, convert, definition.selectionSet, definition.typeCondition, fragment.selectionSet)
  }

  /** Every operation in the table is well formed against `sites` and `used`. */
  ghost predicate OperationsOK(schema: Schema, operations: seq<Entry<CompiledOperation>>, sites: seq<SpreadRecord>, used: set<NamedType>) {
    forall n | n in Keys(operations) ::
      var op := Get(operations, n).value;
      && op.operationName == n
      && op.selectionSet.possibleTypes == PossibleTypesForType(schema, op.rootType)
      && SelectionSetOK(schema, op.selectionSet, op.rootType, sites, used)
  }

  /** Every fragment in the table is well formed against `sites` and `used`. */
  ghost predicate FragmentsOK(schema: Schema, fragments: seq<Entry<CompiledFragment>>, sites: seq<SpreadRecord>, used: set<NamedType>) {
    forall n | n in Keys(fragments) ::
      var f := Get(fragments, n).value;
      && f.fragmentName == n
      && f.selectionSet.possibleTypes == PossibleTypesForType(schema, f.fragmentType)
      && SelectionSetOK(schema, f.selectionSet, f.fragmentType, sites, used)
  }

  lemma OperationsOKMonotonic(schema: Schema, operations: seq<Entry<CompiledOperation>>, sites: seq<SpreadRecord>, used: set<NamedType>,
                              sites': seq<SpreadRecord>, used': set<NamedType>)
    requires OperationsOK(schema, operations, sites, used)
    requires IsPrefix(sites, sites') && used <= used'
    ensures OperationsOK(schema, operations, sites', used')
  {
    forall n | n in Keys(operations)
      ensures SelectionSetOK(schema, Get(operations, n).value.selectionSet, Get(operations, n).value.rootType, sites', used')
    {
      var op := Get(operations, n).value;
      SelectionSetOKMonotonic(schema, op.selectionSet, op.rootType, sites, used, sites', used');
    }
  }

  lemma FragmentsOKMonotonic(schema: Schema, fragments: seq<Entry<CompiledFragment>>, sites: seq<SpreadRecord>, used: set<NamedType>,
                             sites': seq<SpreadRecord>, used': set<NamedType>)
    requires FragmentsOK(schema, fragments, sites, used)
    requires IsPrefix(sites, sites') && used <= used'
    ensures FragmentsOK(schema, fragments, sites', used')
  {
    forall n | n in Keys(fragments)
      ensures SelectionSetOK(schema, Get(fragments, n).value.selectionSet, Get(fragments, n).value.fragmentType, sites', used')
    {
      var f := Get(fragments, n).value;
      SelectionSetOKMonotonic(schema, f.selectionSet, f.fragmentType, sites, used, sites', used');
    }
  }

  /** What the first pass keeps after the first `k` definitions, with `sites` and `used` as the compiler holds them. */
  ghost predicate PassOK(schema: Schema, convert: ValueNode -> Value, doc: seq<DefinitionNode>, k: nat, operations: seq<Entry<CompiledOperation>>,
                         fragments: seq<Entry<CompiledFragment>>, sites: seq<SpreadRecord>, used: seq<NamedType>)
    requires k <= |doc|
  {
    && Distinct(Keys(operations)) && Distinct(Keys(fragments))
    && OperationsOK(schema, operations, sites, Elems(used))
    && FragmentsOK(schema, fragments, sites, Elems(used))
    && OperationTableFrom(schema, convert, doc, k, operations)
    && FragmentTableFrom(schema, convert, doc, k, fragments)
    && NoFailureBefore(schema, doc, k)
  }

  /** Storing the operation compiled from definition `k` keeps the first pass's state. */
  lemma OperationStep(schema: Schema, convert: ValueNode -> Value, doc: seq<DefinitionNode>, k: nat, operations: seq<Entry<CompiledOperation>>,
                      fragments: seq<Entry<CompiledFragment>>, sites: seq<SpreadRecord>, used: seq<NamedType>,
                      sites': seq<SpreadRecord>, used': seq<NamedType>, op: CompiledOperation)
    requires k < |doc| && PassOK(schema, convert, doc, k, operations, fragments, sites, used)
    requires IsPrefix(sites, sites') && IsPrefix(used, used')
    requires OperationFrom(schema, convert, op, doc[k]) && !DefinitionFails(schema, doc[k])
    requires op.selectionSet.possibleTypes == PossibleTypesForType(schema, op.rootType)
    requires SelectionSetOK(schema, op.selectionSet, op.rootType, sites', Elems(used'))
    ensures PassOK(schema, convert, doc, k + 1, Put(operations, op.operationName, op), fragments, sites', used')
  {
    OperationsOKMonotonic(schema, operations, sites, Elems(used), sites', Elems(used'));
    FragmentsOKMonotonic(schema, fragments, sites, Elems(used), sites', Elems(used'));
    PutKeepsKeysDistinct(operations, op.operationName, op);
    OperationsOKPut(schema, operations, sites', Elems(used'), op);
    OperationTableStep(schema, convert, doc, k, operations, Some(op));
    FragmentTableStep(schema, convert, doc, k, fragments, None);
    assert NoFailureBefore(schema, doc, k + 1);
  }

  lemma OperationsOKPut(schema: Schema, operations: seq<Entry<CompiledOperation>>, sites: seq<SpreadRecord>, used: set<NamedType>,
                        op: CompiledOperation)
    requires OperationsOK(schema, operations, sites, used)
    requires op.selectionSet.possibleTypes == PossibleTypesForType(schema, op.rootType)
    requires SelectionSetOK(schema, op.selectionSet, op.rootType, sites, used)
    ensures OperationsOK(schema, Put(operations, op.operationName, op), sites, used)
  {
    var ops' := Put(operations, op.operationName, op);
    forall n | n in Keys(ops')
      ensures Get(ops', n).Some? && Get(ops', n).value.operationName == n
      ensures SelectionSetOK(schema, Get(ops', n).value.selectionSet, Get(ops', n).value.rootType, sites, used)
    {
      if n != op.operationName {
        assert Get(ops', n) == Get(operations, n);
      }
    }
  }

  /** Storing the fragment compiled from definition `k` keeps the first pass's state. */
  lemma FragmentStep(schema: Schema, convert: ValueNode -> Value, doc: seq<DefinitionNode>, k: nat, operations: seq<Entry<CompiledOperation>>,
                     fragments: seq<Entry<CompiledFragment>>, sites: seq<SpreadRecord>, used: seq<NamedType>,
                     sites': seq<SpreadRecord>, used': seq<NamedType>, fragment: CompiledFragment)
    requires k < |doc| && PassOK(schema, convert, doc, k, operations, fragments, sites, used)
    requires IsPrefix(sites, sites') && IsPrefix(used, used')
    requires FragmentFrom(schema, convert, fragment, doc[k]) && !DefinitionFails(schema, doc[k])
    requires fragment.selectionSet.possibleTypes == PossibleTypesForType(schema, fragment.fragmentType)
    requires SelectionSetOK(schema, fragment.selectionSet, fragment.fragmentType, sites', Elems(used'))
    ensures PassOK(schema, convert, doc, k + 1, operations, Put(fragments, fragment.fragmentName, fragment), sites', used')
  {
    OperationsOKMonotonic(schema, operations, sites, Elems(used), sites', Elems(used'));
    FragmentsOKMonotonic(schema, fragments, sites, Elems(used), sites', Elems(used'));
    PutKeepsKeysDistinct(fragments, fragment.fragmentName, fragment);
    FragmentsOKPut(schema, fragments, sites', Elems(used'), fragment);
    OperationTableStep(schema, convert, doc, k, operations, None);
    FragmentTableStep(schema, convert, doc, k, fragments, Some(fragment));
  }

  lemma FragmentsOKPut(schema: Schema, fragments: seq<Entry<CompiledFragment>>, sites: seq<SpreadRecord>, used: set<NamedType>,
                       fragment: CompiledFragment)
    requires FragmentsOK(schema, fragments, sites, used)
    requires fragment.selectionSet.possibleTypes == PossibleTypesForType(schema, fragment.fragmentType)
    requires SelectionSetOK(schema, fragment.selectionSet, fragment.fragmentType, sites, used)
    ensures FragmentsOK(schema, Put(fragments, fragment.fragmentName, fragment), sites, used)
  {
    var fs' := Put(fragments, fragment.fragmentName, fragment);
    forall n | n in Keys(fs')
      ensures Get(fs', n).Some? && Get(fs', n).value.fragmentName == n
      ensures SelectionSetOK(schema, Get(fs', n).value.selectionSet, Get(fs', n).value.fragmentType, sites, used)
    {
      if n != fragment.fragmentName {
        assert Get(fs', n) == Get(fragments, n);
      }
    }
  }

  /** A definition that is neither an operation nor a fragment leaves the tables as they are. */
  lemma OtherStep(schema: Schema, convert: ValueNode -> Value, doc: seq<DefinitionNode>, k: nat, operations: seq<Entry<CompiledOperation>>,
                  fragments: seq<Entry<CompiledFragment>>, sites: seq<SpreadRecord>, used: seq<NamedType>)
    requires k < |doc| && PassOK(schema, convert, doc, k, operations, fragments, sites, used)
    requires doc[k].OtherDefinition?
    ensures PassOK(schema, convert, doc, k + 1, operations, fragments, sites, used)
  {
    OperationTableStep(schema, convert, doc, k, operations, None);
    FragmentTableStep(schema, convert, doc, k, fragments, None);
  }

  /**
   * A compiled context is well formed: the recorded types are closed, the
   * tables have distinct keys naming their entries, every selection set is
   * well formed with `sites` the spread objects as the first pass left them,
   * and every spread object is its placeholder patched from the fragment it names.
   */
  ghost predicate WellFormedIR(schema: Schema, context: CompilerContext, sites: seq<SpreadRecord>) {
    && context.schema == schema
    && TypesUsedOK(schema, context.typesUsed, {})
    && Distinct(Keys(context.operations))
    && Distinct(Keys(context.fragments))
    && OperationsOK(schema, context.operations, sites, Elems(context.typesUsed))
    && FragmentsOK(schema, context.fragments, sites, Elems(context.typesUsed))
    && AllPlaceholders(sites)
    && |context.spreads| == |sites|
    && forall i | 0 <= i < |sites| ::
         && sites[i].fragmentName in Keys(context.fragments)
         && context.spreads[i] == ResolveSpread(Get(context.fragments, sites[i].fragmentName).value, sites[i])
  }

  /** After the last definition and the patching of every spread, the context is well formed. */
  lemma PassComplete(schema: Schema, convert: ValueNode -> Value, doc: seq<DefinitionNode>, operations: seq<Entry<CompiledOperation>>,
                     fragments: seq<Entry<CompiledFragment>>, sites: seq<SpreadRecord>, used: seq<NamedType>,
                     spreads: seq<SpreadRecord>, options: Options)
    requires PassOK(schema, convert, doc, |doc|, operations, fragments, sites, used)
    requires TypesUsedOK(schema, used, {}) && AllPlaceholders(sites)
    requires forall s | s in sites :: s.fragmentName in Keys(fragments)
    requires |spreads| == |sites|
    requires forall i | 0 <= i < |sites| :: spreads[i] == ResolveSpread(Get(fragments, sites[i].fragmentName).value, sites[i])
    ensures WellFormedIR(schema, CompilerContext(schema, used, operations, fragments, spreads, options), sites)
  {
    assert forall i | 0 <= i < |sites| :: sites[i] in sites;
  }

  /**
   * One definition of the loop of `compileToIR`: an operation or a fragment is
   * compiled and stored under its name, replacing any earlier one of that
   * name; any other definition is passed over.
   */
  method CompileDefinition(compiler: Compiler, doc: seq<DefinitionNode>, k: nat,
                           operations: seq<Entry<CompiledOperation>>, fragments: seq<Entry<CompiledFragment>>)
    returns (error: Option<CompileError>, operations': seq<Entry<CompiledOperation>>, fragments': seq<Entry<CompiledFragment>>)
    requires k < |doc| && compiler.Valid()
    requires PassOK(compiler.schema, compiler.valueFromValueNode, doc, k, operations, fragments, compiler.unresolvedFragmentSpreads, compiler.typesUsedSet)
    modifies compiler
    ensures compiler.Valid()
    ensures error.None? ==>
      PassOK(compiler.schema, compiler.valueFromValueNode, doc, k + 1, operations', fragments', compiler.unresolvedFragmentSpreads, compiler.typesUsedSet)
    ensures IsPrefix(old(compiler.unresolvedFragmentSpreads), compiler.unresolvedFragmentSpreads)
    ensures error.Some? <==> DefinitionFails(compiler.schema, doc[k])
    ensures error.Some? ==> error.value == DefinitionError(compiler.schema, doc[k])
    ensures error.None? ==> forall n ::
      Pushed(compiler.unresolvedFragmentSpreads, |old(compiler.unresolvedFragmentSpreads)|, n) <==> SpreadInDefinition(compiler.schema, doc[k], n)
    ensures IsPrefix(old(compiler.typesUsedSet), compiler.typesUsedSet)
    ensures error.None? ==>
      PushedInOrder(compiler.unresolvedFragmentSpreads, |old(compiler.unresolvedFragmentSpreads)|, DefinitionSpreadOrder(compiler.schema, doc[k]))
    ensures error.None? ==> forall t | TypeInDefinition(compiler.schema, doc[k], t) && IsRecordedType(t) :: t in compiler.typesUsedSet
  {
    var schema := compiler.schema;
    ghost var convert := compiler.valueFromValueNode;
    ghost var spreadsBefore, usedBefore := compiler.unresolvedFragmentSpreads, compiler.typesUsedSet;
    operations', fragments' := operations, fragments;
    error := None;
    match doc[k]
    case OperationDefinition(_, _, _, _, _, _) =>
      var operation := compiler.CompileOperation(doc[k]);
      if operation.Err? {
        return Some(operation.error), operations', fragments';
      }
      OperationStep(schema, convert, doc, k, operations, fragments, spreadsBefore, usedBefore,
                    compiler.unresolvedFragmentSpreads, compiler.typesUsedSet, operation.value);
      operations' := Put(operations, operation.value.operationName, operation.value);
    case FragmentDefinition(_, _, _, _, _) =>
      var fragment := compiler.CompileFragment(doc[k]);
      if fragment.Err? {
        return Some(fragment.error), operations', fragments';
      }
      FragmentStep(schema, convert, doc, k, operations, fragments, spreadsBefore, usedBefore,
                   compiler.unresolvedFragmentSpreads, compiler.typesUsedSet, fragment.value);
      fragments' := Put(fragments, fragment.value.fragmentName, fragment.value);
    case OtherDefinition =>
      OtherStep(schema, convert, doc, k, operations, fragments, spreadsBefore, usedBefore);
  }

  /**
   * The first pass of `compileToIR`: the definitions are compiled in order with
   * one compiler, and the first error ends the pass.
   */
  method CompileDefinitions(compiler: Compiler, doc: seq<DefinitionNode>)
    returns (error: Option<CompileError>, operations: seq<Entry<CompiledOperation>>, fragments: seq<Entry<CompiledFragment>>)
    requires compiler.Valid() && compiler.unresolvedFragmentSpreads == [] && compiler.typesUsedSet == []
    modifies compiler
    ensures compiler.Valid()
    ensures error.Some? <==> exists i | 0 <= i < |doc| :: DefinitionFails(compiler.schema, doc[i])
    ensures error.Some? ==> error.value == DocumentErrorFrom(compiler.schema, doc, 0)
    ensures error.None? ==>
      && PassOK(compiler.schema, compiler.valueFromValueNode, doc, |doc|, operations, fragments, compiler.unresolvedFragmentSpreads, compiler.typesUsedSet)
      && PushedExactly(compiler.schema, doc, |doc|, compiler.unresolvedFragmentSpreads)
      && PushedInOrder(compiler.unresolvedFragmentSpreads, 0, DocumentSpreadOrder(compiler.schema, doc, |doc|))
      && DocumentRecorded(compiler.schema, doc, |doc|, compiler.typesUsedSet)
  {
    operations, fragments := [], [];
    for k := 0 to |doc|
      invariant compiler.Valid()
      invariant PassOK(compiler.schema, compiler.valueFromValueNode, doc, k, operations, fragments, compiler.unresolvedFragmentSpreads, compiler.typesUsedSet)
      invariant PushedExactly(compiler.schema, doc, k, compiler.unresolvedFragmentSpreads)
      invariant PushedInOrder(compiler.unresolvedFragmentSpreads, 0, DocumentSpreadOrder(compiler.schema, doc, k))
      invariant DocumentRecorded(compiler.schema, doc, k, compiler.typesUsedSet)
    {
      ghost var sitesBefore, usedBefore := compiler.unresolvedFragmentSpreads, compiler.typesUsedSet;
      error, operations, fragments := CompileDefinition(compiler, doc, k, operations, fragments);
      if error.Some? {
        DocumentErrorAt(compiler.schema, doc, 0, k);
        return;
      }
      DocumentPushStep(compiler.schema, doc, k, sitesBefore, compiler.unresolvedFragmentSpreads);
      PushedInOrderAppend(sitesBefore, compiler.unresolvedFragmentSpreads, 0,
                          DocumentSpreadOrder(compiler.schema, doc, k), DefinitionSpreadOrder(compiler.schema, doc[k]));
      DocumentRecordedStep(compiler.schema, doc, k, usedBefore, compiler.typesUsedSet);
    }
    error := None;
  }

  /**
   * `compileToIR`. Operations and fragments are stored under their names, a
   * later definition replacing an earlier one of the same name; the first
   * error (an unnamed operation, an unknown field, a missing fragment, ...)
   * ends the compilation.
   */
  method CompileToIR(schema: Schema, document: seq<DefinitionNode>, options: Options,
                     valueFromValueNode: ValueNode -> Value, addTypename: seq<DefinitionNode> -> seq<DefinitionNode>)
    returns (r: Result<CompilerContext, CompileError>, ghost sites: seq<SpreadRecord>)
    ensures r.Ok? ==> WellFormedIR(schema, r.value, sites) && r.value.schema == schema && r.value.options == options
    ensures r.Ok? ==> var doc := Prepared(document, options, addTypename);
      && OperationTableFrom(schema, valueFromValueNode, doc, |doc|, r.value.operations)
      && FragmentTableFrom(schema, valueFromValueNode, doc, |doc|, r.value.fragments)
    ensures var doc := Prepared(document, options, addTypename);
      r.Err? <==> (exists i | 0 <= i < |doc| :: DefinitionFails(schema, doc[i])) || UnknownSpread(schema, doc)
    ensures var doc := Prepared(document, options, addTypename);
      (exists i | 0 <= i < |doc| :: DefinitionFails(schema, doc[i])) ==> r == Err(DocumentErrorFrom(schema, doc, 0))
    ensures var doc := Prepared(document, options, addTypename);
      r.Err? && (forall i | 0 <= i < |doc| :: !DefinitionFails(schema, doc[i])) ==>
        && r.error.FragmentNotFound?
        && LastFragmentNamed(doc, |doc|, r.error.fragmentName).None?
        && exists i | 0 <= i < |doc| :: SpreadInDefinition(schema, doc[i], r.error.fragmentName)
    ensures var doc := Prepared(document, options, addTypename); var first := FirstUndefined(doc, DocumentSpreadOrder(schema, doc, |doc|));
      (forall i | 0 <= i < |doc| :: !DefinitionFails(schema, doc[i])) ==>
        && (r.Err? <==> first.Some?)
        && (r.Err? ==> r.error == FragmentNotFound(first.value))
    ensures r.Ok? ==> var doc := Prepared(document, options, addTypename);
      && PushedInOrder(sites, 0, DocumentSpreadOrder(schema, doc, |doc|))
      && DocumentRecorded(schema, doc, |doc|, r.value.typesUsed)
    ensures var doc := Prepared(document, options, addTypename);
      (exists i | 0 <= i < |doc| :: doc[i].OperationDefinition? && doc[i].name.None?) ==> r.Err?
    ensures var doc := Prepared(document, options, addTypename);
      (exists i | 0 <= i < |doc| :: doc[i].OperationDefinition? && doc[i].name.Some? && doc[i].operation !in schema.rootTypes)
      ==> r.Err?
  {
    var doc := Prepared(document, options, addTypename);
    var compiler := new Compiler(schema, valueFromValueNode);
    sites := [];
    var error, operations, fragments := CompileDefinitions(compiler, doc);
    if error.Some? {
      return Err(error.value), sites;
    }
    sites := compiler.unresolvedFragmentSpreads;
    r := ResolveDocument(schema, valueFromValueNode, doc, operations, fragments, compiler.unresolvedFragmentSpreads, compiler.typesUsedSet, options);
  }

  /**
   * The second pass of `compileToIR`: resolve every placeholder against the
   * fragment table and assemble the context from the tables of the first pass.
   */
  method ResolveDocument(schema: Schema, convert: ValueNode -> Value, doc: seq<DefinitionNode>,
                         operations: seq<Entry<CompiledOperation>>, fragments: seq<Entry<CompiledFragment>>,
                         sites: seq<SpreadRecord>, used: seq<NamedType>, options: Options)
    returns (r: Result<CompilerContext, CompileError>)
    requires PassOK(schema, convert, doc, |doc|, operations, fragments, sites, used)
    requires PushedExactly(schema, doc, |doc|, sites)
    requires PushedInOrder(sites, 0, DocumentSpreadOrder(schema, doc, |doc|))
    requires TypesUsedOK(schema, used, {}) && AllPlaceholders(sites)
    ensures r.Ok? ==> WellFormedIR(schema, r.value, sites) && r.value.schema == schema && r.value.options == options
    ensures r.Ok? ==> r.value.typesUsed == used
    ensures r.Ok? ==>
      && OperationTableFrom(schema, convert, doc, |doc|, r.value.operations)
      && FragmentTableFrom(schema, convert, doc, |doc|, r.value.fragments)
    ensures r.Err? <==> UnknownSpread(schema, doc)
    ensures r.Err? <==> FirstUndefined(doc, DocumentSpreadOrder(schema, doc, |doc|)).Some?
    ensures r.Err? ==>
      && r.error == FragmentNotFound(FirstUndefined(doc, DocumentSpreadOrder(schema, doc, |doc|)).value)
      && LastFragmentNamed(doc, |doc|, r.error.fragmentName).None?
      && exists i | 0 <= i < |doc| :: SpreadInDefinition(schema, doc[i], r.error.fragmentName)
  {
    var spreads := ResolveFragmentSpreads(sites, fragments);
    if spreads.Err? {
      ghost var j :| 0 <= j < |sites| && sites[j].fragmentName !in Keys(fragments) && spreads.error == FragmentNotFound(sites[j].fragmentName)
        && forall l | 0 <= l < j :: sites[l].fragmentName in Keys(fragments);
      SpreadUnknown(schema, convert, doc, sites, fragments, j);
      FirstUnknownSite(schema, convert, doc, sites, fragments, j);
      return Err(spreads.error);
    }
    SpreadsKnown(schema, convert, doc, sites, fragments);
    AllSitesKnown(schema, convert, doc, sites, fragments);
    PassComplete(schema, convert, doc, operations, fragments, sites, used, spreads.value, options);
    return Ok(CompilerContext(schema, used, operations, fragments, spreads.value, options));
  }
}
