/**
 * The raw intermediate representation the compiler produces, and what it
 * means for a compiled selection tree to be well formed against the schema.
 *
 * A fragment spread in the source is one object that is both placed in the
 * tree and pushed on the compiler's pending list, so that the second pass can
 * patch it. Here the tree holds `FragmentSpread(name, slot)` and the object
 * itself is the `SpreadRecord` at index `slot` of the spread table.
 */
module RawIR {
  import opened Wrappers
  import opened Seqs
  import opened GraphQL

  datatype Argument = Argument(name: string, value: Value)

  datatype CompiledField = CompiledField(
    responseKey: string,
    name: string,
    alias: Option<string>,
    args: Option<seq<Argument>>,
    fieldType: TypeRef,
    description: Option<string>,
    isDeprecated: bool,
    deprecationReason: Option<string>,
    hasOperationExclusiveDirectives: bool,
    selectionSet: Option<SelectionSet>)

  datatype Selection =
    | Field(field: CompiledField)
    | TypeCondition(conditionType: NamedType, selectionSet: SelectionSet)
    | FragmentSpread(fragmentName: string, slot: nat)
    | BooleanCondition(variableName: string, inverted: bool, selectionSet: SelectionSet)

  datatype SelectionSet = SelectionSet(possibleTypes: seq<NamedType>, selections: seq<Selection>)

  /** The fragment-spread object: a placeholder after the first pass, patched by the second. */
  datatype SpreadRecord = SpreadRecord(fragmentName: string, selectionSet: SelectionSet, isConditional: Option<bool>)

  datatype VariableDefinition = VariableDefinition(name: string, variableType: TypeRef)

  datatype CompiledOperation = CompiledOperation(
    filePath: string,
    operationName: string,
    operationType: OperationType,
    variables: seq<VariableDefinition>,
    source: string,
    rootType: NamedType,
    selectionSet: SelectionSet)

  datatype CompiledFragment = CompiledFragment(
    fragmentName: string,
    filePath: string,
    source: string,
    fragmentType: NamedType,
    selectionSet: SelectionSet)

  /** `{ schema, typesUsed, operations, fragments, options }` together with the table of spread objects. */
  datatype CompilerContext = CompilerContext(
    schema: Schema,
    typesUsed: seq<NamedType>,
    operations: seq<Entry<CompiledOperation>>,
    fragments: seq<Entry<CompiledFragment>>,
    spreads: seq<SpreadRecord>,
    options: Options)

  datatype CompileError =
    | UnnamedOperation
    | UnknownField(fieldName: string, typeName: string)
    | MissingSelectionSet(fieldName: string, typeName: string)
    | FragmentNotFound(fragmentName: string)
    | MissingRootType(operationType: OperationType)
    | MissingDirectiveArgument(directiveName: string)

  /** The placeholder pushed for a spread compiled where `possibleTypes` are the possible types. */
  function Placeholder(fragmentName: string, possibleTypes: seq<NamedType>): SpreadRecord {
    SpreadRecord(fragmentName, SelectionSet(possibleTypes, []), None)
  }

  /**
   * `possibleTypesForType`: the object types a selection on `t` can resolve
   * to: the schema's expansion for an abstract type, `t` itself otherwise.
   */
  function PossibleTypesForType(schema: Schema, t: NamedType): (r: seq<NamedType>)
    ensures !IsAbstractType(t) ==> r == [t]
    ensures IsAbstractType(t) && t.name in schema.possibleTypes ==> r == schema.possibleTypes[t.name]
    ensures IsAbstractType(t) && t.name !in schema.possibleTypes ==> r == []
  {
    if IsAbstractType(t) then SchemaPossibleTypes(schema, t) else [t]
  }

  /** The types `addTypeUsed` records: enums, input objects and custom scalars. */
  predicate IsRecordedType(t: NamedType) {
    t.kind == EnumKind || t.kind == InputObjectKind || (t.kind == ScalarKind && !IsBuiltInScalarType(t))
  }

  /**
   * Every input object in `used`, except those in `pending` whose fields are
   * still being walked, has the recorded named types of its fields in `used`.
   */
  ghost predicate ClosedExcept(schema: Schema, used: seq<NamedType>, pending: set<NamedType>) {
    forall u, f :: u in used && u !in pending && f in InputFieldTypes(schema, u) && IsRecordedType(GetNamedType(f))
      ==> GetNamedType(f) in used
  }

  /** The fragment names that spreads at this level of a selection set carry, through boolean wrappers. */
  function LevelSpreadName(s: Selection): seq<string> {
    match s
    case FragmentSpread(name, _) => [name]
    case BooleanCondition(_, _, ss) => if |ss.selections| == 1 then LevelSpreadName(ss.selections[0]) else []
    case _ => []
  }

  function LevelSpreadNames(selections: seq<Selection>): seq<string> {
    if selections == [] then []
    else LevelSpreadNames(selections[..|selections| - 1]) + LevelSpreadName(selections[|selections| - 1])
  }

  /** A compiled field agrees with the schema definition of `name` on `parentType`. */
  predicate FieldMatchesSchema(schema: Schema, f: CompiledField, parentType: NamedType) {
    && GetFieldDef(schema, parentType, f.name).Some?
    && f.fieldType == GetFieldDef(schema, parentType, f.name).value.fieldType
    && f.responseKey == OrElse(f.alias, f.name)
    && (f.selectionSet.Some? <==> IsCompositeType(GetNamedType(f.fieldType)))
  }

  /**
   * A compiled selection set is well formed against the schema when compiled
   * for `parentType`, with `sites` the spread objects as the first pass left
   * them and `used` the recorded types: fields exist on the parent type, nested
   * sets exist exactly for composite fields, inline fragments narrow the
   * enclosing possible types, every spread points at its own placeholder,
   * boolean wrappers hold one selection, and no fragment is spread twice at
   * one level.
   */
  predicate SelectionSetOK(schema: Schema, ss: SelectionSet, parentType: NamedType, sites: seq<SpreadRecord>, used: set<NamedType>)
    decreases ss, 1
  {
    && Distinct(LevelSpreadNames(ss.selections))
    && forall s | s in ss.selections :: SelectionOK(schema, s, parentType, ss.possibleTypes, sites, used)
  }

  predicate SelectionOK(schema: Schema, s: Selection, parentType: NamedType, possibleTypes: seq<NamedType>, sites: seq<SpreadRecord>, used: set<NamedType>)
    decreases s, 0
  {
    match s
    case Field(f) =>
      var named := GetNamedType(f.fieldType);
      && FieldMatchesSchema(schema, f, parentType)
      && (IsRecordedType(named) ==> named in used)
      && (f.selectionSet.Some? ==>
            && f.selectionSet.value.possibleTypes == PossibleTypesForType(schema, named)
            && SelectionSetOK(schema, f.selectionSet.value, named, sites, used))
    case TypeCondition(t, inner) =>
      && inner.possibleTypes == Filter(PossibleTypesForType(schema, t), possibleTypes)
      && SelectionSetOK(schema, inner, t, sites, used)
    case FragmentSpread(name, slot) =>
      slot < |sites| && sites[slot] == Placeholder(name, possibleTypes)
    case BooleanCondition(_, _, inner) =>
      && inner.possibleTypes == possibleTypes
      && |inner.selections| == 1
      && SelectionOK(schema, inner.selections[0], parentType, possibleTypes, sites, used)
  }

  /** Well-formedness survives more spread objects being pushed and more types being recorded. */
  lemma {:induction false} SelectionSetOKMonotonic(schema: Schema, ss: SelectionSet, parentType: NamedType,
                                                   sites: seq<SpreadRecord>, used: set<NamedType>,
                                                   sites': seq<SpreadRecord>, used': set<NamedType>)
    requires SelectionSetOK(schema, ss, parentType, sites, used)
    requires IsPrefix(sites, sites') && used <= used'
    ensures SelectionSetOK(schema, ss, parentType, sites', used')
    decreases ss, 1
  {
    forall s | s in ss.selections
      ensures SelectionOK(schema, s, parentType, ss.possibleTypes, sites', used')
    {
      SelectionOKMonotonic(schema, s, parentType, ss.possibleTypes, sites, used, sites', used');
    }
  }

  lemma {:induction false} SelectionOKMonotonic(schema: Schema, s: Selection, parentType: NamedType, possibleTypes: seq<NamedType>,
                                                sites: seq<SpreadRecord>, used: set<NamedType>,
                                                sites': seq<SpreadRecord>, used': set<NamedType>)
    requires SelectionOK(schema, s, parentType, possibleTypes, sites, used)
    requires IsPrefix(sites, sites') && used <= used'
    ensures SelectionOK(schema, s, parentType, possibleTypes, sites', used')
    decreases s, 0
  {
    match s
    case Field(f) =>
      if f.selectionSet.Some? {
        SelectionSetOKMonotonic(schema, f.selectionSet.value, GetNamedType(f.fieldType), sites, used, sites', used');
      }
    case TypeCondition(t, inner) =>
      SelectionSetOKMonotonic(schema, inner, t, sites, used, sites', used');
    case FragmentSpread(name, slot) =>
      assert sites'[slot] == sites[slot];
    case BooleanCondition(_, _, inner) =>
      SelectionOKMonotonic(schema, inner.selections[0], parentType, possibleTypes, sites, used, sites', used');
  }
}
