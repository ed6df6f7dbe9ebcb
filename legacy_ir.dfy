/**
 * The legacy IR: each raw selection set is flattened into the fields of its
 * type-case default, the fragment spreads that apply to all its possible
 * types, and one inline fragment per concrete type of every variant worth
 * keeping.
 *
 * The type-case analysis, field merging, the collection of referenced
 * fragments and the operation-id digest live in files that are not part of
 * this model; they are the functions of `Visitors`, and see the spread table
 * of the compiled context through whatever they close over.
 */
module LegacyIR {
  import opened Wrappers
  import opened Seqs
  import opened GraphQL
  import opened Ast
  import opened RawIR
  import opened Compilation
  import Compiler

  /** `new TypeCase(selectionSet, merge)`: the part that applies to every possible type, and the variants. */
  datatype TypeCase = TypeCase(default: SelectionSet, variants: seq<SelectionSet>)

  /** A boolean condition a merged field is under. */
  datatype MergedCondition = MergedCondition(kind: string, variableName: string, inverted: bool, selectionSet: SelectionSet)

  /** A field as `collectAndMergeFields` returns it. */
  datatype MergedField = MergedField(field: CompiledField, isConditional: bool, conditions: Option<seq<MergedCondition>>)

  datatype OperationId = OperationId(sourceWithFragments: string, operationId: string)

  datatype Visitors = Visitors(
    typeCase: (SelectionSet, bool) -> TypeCase,
    collectAndMergeFields: SelectionSet -> seq<MergedField>,
    collectFragmentsReferenced: (SelectionSet, seq<Entry<CompiledFragment>>) -> seq<string>,
    generateOperationId: (CompiledOperation, seq<Entry<CompiledFragment>>, seq<string>) -> OperationId)

  datatype LegacyCondition = LegacyCondition(kind: string, variableName: string, inverted: bool)

  datatype LegacyField = LegacyField(
    responseName: string,
    fieldName: string,
    fieldType: TypeRef,
    args: Option<seq<Argument>>,
    isConditional: bool,
    conditions: Option<seq<LegacyCondition>>,
    description: Option<string>,
    isDeprecated: bool,
    deprecationReason: Option<string>,
    hasOperationExclusiveDirectives: bool,
    nested: Option<LegacySelectionSet>)

  datatype LegacyInlineFragment = LegacyInlineFragment(
    typeCondition: NamedType,
    possibleTypes: seq<NamedType>,
    fields: seq<LegacyField>,
    fragmentSpreads: seq<string>)

  /**
   * `{ fields, fragmentSpreads, inlineFragments }`; `inlineFragmentsByType`
   * holds the properties keyed by type name that the source sets on the
   * `inlineFragments` array itself.
   */
  datatype LegacySelectionSet = LegacySelectionSet(
    fields: seq<LegacyField>,
    fragmentSpreads: seq<string>,
    inlineFragments: seq<LegacyInlineFragment>,
    inlineFragmentsByType: seq<Entry<LegacyInlineFragment>>)

  datatype LegacyOperation = LegacyOperation(
    filePath: string,
    operationName: string,
    operationType: OperationType,
    rootType: NamedType,
    variables: seq<VariableDefinition>,
    source: string,
    selection: LegacySelectionSet,
    fragmentsReferenced: seq<string>,
    sourceWithFragments: string,
    operationId: string)

  datatype LegacyFragment = LegacyFragment(
    typeCondition: NamedType,
    possibleTypes: seq<NamedType>,
    fragmentName: string,
    filePath: string,
    source: string,
    selection: LegacySelectionSet)

  datatype LegacyContext = LegacyContext(
    schema: Schema,
    operations: seq<Entry<LegacyOperation>>,
    fragments: seq<Entry<LegacyFragment>>,
    typesUsed: seq<NamedType>,
    options: Options)

  /** The options used when none are given: only field merging from fragment spreads is switched on. */
  function OptionsOrDefault(options: Option<Options>): (r: Options)
    ensures options.None? ==> r.mergeInFieldsFromFragmentSpreads && !r.addTypename
    ensures options.Some? ==> r == options.value
  {
    if options.Some? then options.value
    else Options(addTypename := false, mergeInFieldsFromFragmentSpreads := true,
                 passthroughCustomScalars := false, customScalarsPrefix := "")
  }

  /** `scope.every(type => others.includes(type))`. */
  predicate Covers(others: seq<NamedType>, scope: seq<NamedType>) {
    forall t | t in scope :: t in others
  }

  /**
   * What `collectFragmentSpreads` pushes for selection `i` of `ss`: a spread
   * itself, the spreads of a type condition that covers the scope, the spreads
   * under a boolean condition; nothing for a field.
   */
  function Pushed(ss: SelectionSet, i: nat, scope: seq<NamedType>): (r: seq<Selection>)
    requires i < |ss.selections|
    ensures forall x | x in r :: x.FragmentSpread?
    ensures ss.selections[i].FragmentSpread? ==> r == [ss.selections[i]]
    decreases ss, 0, 0
  {
    match ss.selections[i]
    case FragmentSpread(_, _) => [ss.selections[i]]
    case TypeCondition(_, inner) => if Covers(inner.possibleTypes, scope) then CollectedSpreads(inner, scope) else []
    case BooleanCondition(_, _, inner) => CollectedSpreads(inner, scope)
    case Field(_) => []
  }

  /** What the loop of `collectFragmentSpreads` has pushed after the first `n` selections. */
  function SpreadWalk(ss: SelectionSet, n: nat, scope: seq<NamedType>): (r: seq<Selection>)
    requires n <= |ss.selections|
    ensures forall x | x in r :: x.FragmentSpread?
    ensures forall i | 0 <= i < n && ss.selections[i].FragmentSpread? :: ss.selections[i] in r
    decreases ss, 0, n + 1
  {
    if n == 0 then []
    else SpreadWalk(ss, n - 1, scope) + Pushed(ss, n - 1, scope)
  }

  /**
   * `collectFragmentSpreads(selectionSet, scope)`: the spread objects that
   * apply to every type of `scope`, each once, in the order first met.
   */
  function CollectedSpreads(ss: SelectionSet, scope: seq<NamedType>): (r: seq<Selection>)
    ensures Distinct(r)
    ensures forall x | x in r :: x.FragmentSpread?
    ensures forall s | s in ss.selections && s.FragmentSpread? :: s in r
    ensures forall i, j | 0 <= i < j < |r| ::
      r[i] in SpreadWalk(ss, |ss.selections|, scope) && r[j] in SpreadWalk(ss, |ss.selections|, scope) &&
      FirstIndex(SpreadWalk(ss, |ss.selections|, scope), r[i]) < FirstIndex(SpreadWalk(ss, |ss.selections|, scope), r[j])
    decreases ss, 1
  {
    var walked := SpreadWalk(ss, |ss.selections|, scope);
    assert forall s | s in ss.selections && s.FragmentSpread? :: s in walked by {
      forall s | s in ss.selections && s.FragmentSpread? ensures s in walked {
        var i :| 0 <= i < |ss.selections| && ss.selections[i] == s;
      }
    }
    Dedup(walked)
  }

  /**
   * The spread `x` applies to every type of `scope` through selection `i` of
   * `ss`: the selection is `x` itself, or a boolean condition around a
   * selection set that `x` reaches, or a type condition whose possible types
   * cover the scope around one. Nothing comes from a field or from a type
   * condition that does not cover the scope.
   */
  ghost predicate Contributes(ss: SelectionSet, i: nat, scope: seq<NamedType>, x: Selection)
    requires i < |ss.selections|
    decreases ss, 0
  {
    match ss.selections[i]
    case FragmentSpread(_, _) => x == ss.selections[i]
    case TypeCondition(_, inner) => Covers(inner.possibleTypes, scope) && Reaches(inner, scope, x)
    case BooleanCondition(_, _, inner) => Reaches(inner, scope, x)
    case Field(_) => false
  }

  ghost predicate Reaches(ss: SelectionSet, scope: seq<NamedType>, x: Selection)
    decreases ss, 1
  {
    exists i | 0 <= i < |ss.selections| :: Contributes(ss, i, scope, x)
  }

  /** The spreads collected are exactly those that reach the scope. */
  lemma {:induction false} CollectedSpreadsExactly(ss: SelectionSet, scope: seq<NamedType>)
    ensures forall x :: x in CollectedSpreads(ss, scope) <==> Reaches(ss, scope, x)
    decreases ss, 1
  {
    forall x ensures x in CollectedSpreads(ss, scope) <==> Reaches(ss, scope, x) {
      SpreadWalkExactly(ss, |ss.selections|, scope, x);
    }
  }

  /** Some selection among the first `n` of `ss` lets `x` through to the scope. */
  ghost predicate ContributedBefore(ss: SelectionSet, n: nat, scope: seq<NamedType>, x: Selection)
    requires n <= |ss.selections|
  {
    exists i | 0 <= i < n :: Contributes(ss, i, scope, x)
  }

  lemma {:induction false} SpreadWalkExactly(ss: SelectionSet, n: nat, scope: seq<NamedType>, x: Selection)
    requires n <= |ss.selections|
    ensures x in SpreadWalk(ss, n, scope) <==> ContributedBefore(ss, n, scope, x)
    decreases ss, 0, n
  {
    if n > 0 {
      SpreadWalkExactly(ss, n - 1, scope, x);
      match ss.selections[n - 1] {
        case TypeCondition(_, inner) => CollectedSpreadsExactly(inner, scope);
        case BooleanCondition(_, _, inner) => CollectedSpreadsExactly(inner, scope);
        case _ =>
      }
      assert SpreadWalk(ss, n, scope) == SpreadWalk(ss, n - 1, scope) + Pushed(ss, n - 1, scope);
      assert x in Pushed(ss, n - 1, scope) <==> Contributes(ss, n - 1, scope, x);
      if ContributedBefore(ss, n, scope, x) && !Contributes(ss, n - 1, scope, x) {
        var i :| 0 <= i < n && Contributes(ss, i, scope, x);
        assert ContributedBefore(ss, n - 1, scope, x);
      }
    }
  }

  /** A spread name is collected exactly when a spread of that name reaches the scope. */
  ghost predicate ReachesName(ss: SelectionSet, scope: seq<NamedType>, n: string) {
    exists x :: Reaches(ss, scope, x) && x.FragmentSpread? && x.fragmentName == n
  }

  lemma SpreadNamesExactly(ss: SelectionSet, scope: seq<NamedType>)
    ensures forall n :: n in SpreadNames(CollectedSpreads(ss, scope)) <==> ReachesName(ss, scope, n)
  {
    CollectedSpreadsExactly(ss, scope);
    forall n ensures n in SpreadNames(CollectedSpreads(ss, scope)) <==> ReachesName(ss, scope, n) {
      SpreadNameAt(CollectedSpreads(ss, scope), ss, scope, n);
    }
  }

  lemma SpreadNameAt(spreads: seq<Selection>, ss: SelectionSet, scope: seq<NamedType>, n: string)
    requires forall x | x in spreads :: x.FragmentSpread?
    requires forall x :: x in spreads <==> Reaches(ss, scope, x)
    ensures n in SpreadNames(spreads) <==> ReachesName(ss, scope, n)
  {
    var names := SpreadNames(spreads);
    if n in names {
      var i :| 0 <= i < |names| && names[i] == n;
      assert spreads[i] in spreads;
    }
    if ReachesName(ss, scope, n) {
      var x :| Reaches(ss, scope, x) && x.FragmentSpread? && x.fragmentName == n;
      var i :| 0 <= i < |spreads| && spreads[i] == x;
      assert names[i] == n;
    }
  }

  /** `.map(fragmentSpread => fragmentSpread.fragmentName)`. */
  function SpreadNames(spreads: seq<Selection>): (r: seq<string>)
    requires forall x | x in spreads :: x.FragmentSpread?
    ensures |r| == |spreads| && forall i | 0 <= i < |r| :: r[i] == spreads[i].fragmentName
  {
    seq(|spreads|, i requires 0 <= i < |spreads| => spreads[i].fragmentName)
  }

  /**
   * A narrower scope can only let more spreads through: every spread that
   * applies to all of `scope` also applies to all of a scope whose types are
   * among them, such as a variant of the selection set.
   */
  lemma {:induction false} CollectedSpreadsNarrowing(ss: SelectionSet, scope: seq<NamedType>, narrower: seq<NamedType>)
    requires forall t | t in narrower :: t in scope
    ensures forall x | x in CollectedSpreads(ss, scope) :: x in CollectedSpreads(ss, narrower)
    decreases ss, 1
  {
    SpreadWalkNarrowing(ss, |ss.selections|, scope, narrower);
  }

  lemma {:induction false} SpreadWalkNarrowing(ss: SelectionSet, n: nat, scope: seq<NamedType>, narrower: seq<NamedType>)
    requires n <= |ss.selections|
    requires forall t | t in narrower :: t in scope
    ensures forall x | x in SpreadWalk(ss, n, scope) :: x in SpreadWalk(ss, n, narrower)
    decreases ss, 0, n
  {
    if n > 0 {
      SpreadWalkNarrowing(ss, n - 1, scope, narrower);
      match ss.selections[n - 1]
      case FragmentSpread(_, _) =>
      case TypeCondition(_, inner) =>
        if Covers(inner.possibleTypes, scope) {
          assert Covers(inner.possibleTypes, narrower);
          CollectedSpreadsNarrowing(inner, scope, narrower);
          assert Pushed(ss, n - 1, narrower) == CollectedSpreads(inner, narrower);
        } else {
          assert Pushed(ss, n - 1, scope) == [];
        }
      case BooleanCondition(_, _, inner) =>
        CollectedSpreadsNarrowing(inner, scope, narrower);
        assert Pushed(ss, n - 1, scope) == CollectedSpreads(inner, scope);
        assert Pushed(ss, n - 1, narrower) == CollectedSpreads(inner, narrower);
      case Field(_) =>
    }
  }

  /** The last inline fragment for the type named `n`, if any. */
  function LastForTypeName(fragments: seq<LegacyInlineFragment>, n: string): (r: Option<nat>)
    ensures r.Some? ==> r.value < |fragments| && fragments[r.value].typeCondition.name == n
    ensures r.Some? ==> forall j | r.value < j < |fragments| :: fragments[j].typeCondition.name != n
    ensures r.None? <==> forall j | 0 <= j < |fragments| :: fragments[j].typeCondition.name != n
  {
    if fragments == [] then None
    else if fragments[|fragments| - 1].typeCondition.name == n then Some(|fragments| - 1)
    else LastForTypeName(fragments[..|fragments| - 1], n)
  }

  /** Some fragment of `fragments` has the type named `n` as its condition. */
  ghost predicate HasTypeName(fragments: seq<LegacyInlineFragment>, n: string) {
    exists j | 0 <= j < |fragments| :: fragments[j].typeCondition.name == n
  }

  /** The loop `inlineFragments[inlineFragment.typeCondition.name] = inlineFragment` over the fragments so far. */
  function IndexByTypeName(fragments: seq<LegacyInlineFragment>): (r: seq<Entry<LegacyInlineFragment>>)
    ensures forall n :: Get(r, n).Some? <==> HasTypeName(fragments, n)
    ensures forall n | Get(r, n).Some? :: Get(r, n).value in fragments && Get(r, n).value.typeCondition.name == n
  {
    if fragments == [] then []
    else
      var m := IndexByTypeName(fragments[..|fragments| - 1]);
      IndexStep(fragments, m);
      Put(m, fragments[|fragments| - 1].typeCondition.name, fragments[|fragments| - 1])
  }

  /** Indexing one more fragment keeps each key naming an indexed fragment of that type. */
  lemma IndexStep(fragments: seq<LegacyInlineFragment>, m: seq<Entry<LegacyInlineFragment>>)
    requires fragments != []
    requires forall n :: Get(m, n).Some? <==> HasTypeName(fragments[..|fragments| - 1], n)
    requires forall n | Get(m, n).Some? :: Get(m, n).value in fragments[..|fragments| - 1] && Get(m, n).value.typeCondition.name == n
    ensures var r := Put(m, fragments[|fragments| - 1].typeCondition.name, fragments[|fragments| - 1]);
      && (forall n :: Get(r, n).Some? <==> HasTypeName(fragments, n))
      && (forall n | Get(r, n).Some? :: Get(r, n).value in fragments && Get(r, n).value.typeCondition.name == n)
  {
    var r := Put(m, fragments[|fragments| - 1].typeCondition.name, fragments[|fragments| - 1]);
    forall n
      ensures Get(r, n).Some? <==> HasTypeName(fragments, n)
      ensures Get(r, n).Some? ==> Get(r, n).value in fragments && Get(r, n).value.typeCondition.name == n
    {
      IndexStepAt(fragments, m, n);
    }
  }

  lemma IndexStepAt(fragments: seq<LegacyInlineFragment>, m: seq<Entry<LegacyInlineFragment>>, n: string)
    requires fragments != []
    requires Get(m, n).Some? <==> HasTypeName(fragments[..|fragments| - 1], n)
    requires Get(m, n).Some? ==> Get(m, n).value in fragments[..|fragments| - 1] && Get(m, n).value.typeCondition.name == n
    ensures var r := Put(m, fragments[|fragments| - 1].typeCondition.name, fragments[|fragments| - 1]);
      && (Get(r, n).Some? <==> HasTypeName(fragments, n))
      && (Get(r, n).Some? ==> Get(r, n).value in fragments && Get(r, n).value.typeCondition.name == n)
  {
    var init, last := fragments[..|fragments| - 1], fragments[|fragments| - 1];
    var r := Put(m, last.typeCondition.name, last);
    if n == last.typeCondition.name {
      assert Get(r, n) == Some(last);
      assert fragments[|fragments| - 1].typeCondition.name == n;
    } else {
      assert Get(r, n) == Get(m, n);
      TypeNameBeforeLast(fragments, n);
      if Get(m, n).Some? {
        InPrefix(fragments, |fragments| - 1, Get(m, n).value);
      }
    }
  }

  /** A type name other than the last fragment's is named in `fragments` exactly when it is named before the last. */
  lemma TypeNameBeforeLast(fragments: seq<LegacyInlineFragment>, n: string)
    requires fragments != [] && n != fragments[|fragments| - 1].typeCondition.name
    ensures HasTypeName(fragments, n) <==> HasTypeName(fragments[..|fragments| - 1], n)
  {
    var init := fragments[..|fragments| - 1];
    if HasTypeName(fragments, n) {
      var j :| 0 <= j < |fragments| && fragments[j].typeCondition.name == n;
      assert init[j] == fragments[j];
    }
    if HasTypeName(init, n) {
      var j :| 0 <= j < |init| && init[j].typeCondition.name == n;
      assert fragments[j] == init[j];
    }
  }

  /** An element of a prefix is an element of the whole. */
  lemma InPrefix<T>(xs: seq<T>, k: nat, x: T)
    requires k <= |xs| && x in xs[..k]
    ensures x in xs
  {
    var i :| 0 <= i < k && xs[..k][i] == x;
    assert xs[i] == x;
  }

  /** Every type name is a key of the index, holding the last fragment for that type. */
  lemma {:induction false} IndexByTypeNameHoldsLast(fragments: seq<LegacyInlineFragment>)
    ensures Distinct(Keys(IndexByTypeName(fragments)))
    ensures forall n :: (Get(IndexByTypeName(fragments), n).Some? <==> LastForTypeName(fragments, n).Some?)
    ensures forall n | LastForTypeName(fragments, n).Some? ::
      Get(IndexByTypeName(fragments), n) == Some(fragments[LastForTypeName(fragments, n).value])
  {
    if fragments != [] {
      var init := fragments[..|fragments| - 1];
      var last := fragments[|fragments| - 1];
      IndexByTypeNameHoldsLast(init);
      PutKeepsKeysDistinct(IndexByTypeName(init), last.typeCondition.name, last);
      forall n
        ensures Get(IndexByTypeName(fragments), n).Some? <==> LastForTypeName(fragments, n).Some?
        ensures LastForTypeName(fragments, n).Some? ==>
          Get(IndexByTypeName(fragments), n) == Some(fragments[LastForTypeName(fragments, n).value])
      {
        HoldsLastAt(fragments, n);
      }
    }
  }

  /** One step of `IndexByTypeNameHoldsLast`, for one type name. */
  lemma HoldsLastAt(fragments: seq<LegacyInlineFragment>, n: string)
    requires fragments != []
    requires var init := fragments[..|fragments| - 1];
      && (Get(IndexByTypeName(init), n).Some? <==> LastForTypeName(init, n).Some?)
      && (LastForTypeName(init, n).Some? ==> Get(IndexByTypeName(init), n) == Some(init[LastForTypeName(init, n).value]))
    ensures Get(IndexByTypeName(fragments), n).Some? <==> LastForTypeName(fragments, n).Some?
    ensures LastForTypeName(fragments, n).Some? ==>
      Get(IndexByTypeName(fragments), n) == Some(fragments[LastForTypeName(fragments, n).value])
  {
    var init := fragments[..|fragments| - 1];
    var last := fragments[|fragments| - 1];
    assert IndexByTypeName(fragments) == Put(IndexByTypeName(init), last.typeCondition.name, last);
    if n != last.typeCondition.name {
      assert LastForTypeName(fragments, n) == LastForTypeName(init, n);
      assert Get(IndexByTypeName(fragments), n) == Get(IndexByTypeName(init), n);
    }
  }

  /** The loop that makes each inline fragment addressable by its type's name. */
  method IndexInlineFragments(inlineFragments: seq<LegacyInlineFragment>) returns (byType: seq<Entry<LegacyInlineFragment>>)
    ensures byType == IndexByTypeName(inlineFragments)
  {
    byType := [];
    for i := 0 to |inlineFragments|
      invariant byType == IndexByTypeName(inlineFragments[..i])
    {
      assert inlineFragments[..i + 1][..i] == inlineFragments[..i];
      byType := Put(byType, inlineFragments[i].typeCondition.name, inlineFragments[i]);
    }
    assert inlineFragments[..|inlineFragments|] == inlineFragments;
  }

  /** `field.conditions.map(({ kind, variableName, inverted }) => ...)`, or nothing when there are none. */
  function ProjectConditions(conditions: Option<seq<MergedCondition>>): (r: Option<seq<LegacyCondition>>)
    ensures r.None? <==> conditions.None? || conditions.value == []
    ensures r.Some? ==> |r.value| == |conditions.value| && forall i | 0 <= i < |r.value| ::
      r.value[i] == LegacyCondition(conditions.value[i].kind, conditions.value[i].variableName, conditions.value[i].inverted)
  {
    if conditions.Some? && |conditions.value| > 0 then
      Some(seq(|conditions.value|, i requires 0 <= i < |conditions.value| =>
        LegacyCondition(conditions.value[i].kind, conditions.value[i].variableName, conditions.value[i].inverted)))
    else None
  }

  /**
   * The transformation recurses into the selection sets of merged fields,
   * which the visitors build; it terminates because those are shallower than
   * the selection set they were merged from (by `height`), as they are for a
   * document whose fragments do not spread each other in a cycle.
   */
  ghost predicate ShallowerFields(height: SelectionSet -> nat, fields: seq<MergedField>, bound: nat) {
    forall f | f in fields && f.field.selectionSet.Some? :: height(f.field.selectionSet.value) < bound
  }

  ghost predicate LevelShallower(visitors: Visitors, height: SelectionSet -> nat, merge: bool, ss: SelectionSet) {
    var typeCase := visitors.typeCase(ss, merge);
    && ShallowerFields(height, visitors.collectAndMergeFields(typeCase.default), height(ss))
    && forall variant | variant in typeCase.variants :: ShallowerFields(height, visitors.collectAndMergeFields(variant), height(ss))
  }

  ghost predicate VisitorsTerminate(visitors: Visitors, height: SelectionSet -> nat, merge: bool) {
    forall ss :: LevelShallower(visitors, height, merge, ss)
  }

  class LegacyIRTransformer {
    const context: CompilerContext
    const options: Options
    const visitors: Visitors
    /** The measure under which merged fields' selection sets are shallower. */
    ghost const height: SelectionSet -> nat

    constructor(context: CompilerContext, options: Options, visitors: Visitors, ghost height: SelectionSet -> nat)
      ensures this.context == context && this.options == options
      ensures this.visitors == visitors && this.height == height
    {
      this.context := context;
      this.options := options;
      this.visitors := visitors;
      this.height := height;
    }

    ghost predicate Terminating() {
      VisitorsTerminate(visitors, height, options.mergeInFieldsFromFragmentSpreads)
    }

    function TypeCaseOf(ss: SelectionSet): TypeCase {
      visitors.typeCase(ss, options.mergeInFieldsFromFragmentSpreads)
    }

    /** The legacy shape of one merged field. */
    function TransformField(f: MergedField, ghost bound: nat): (r: LegacyField)
      requires Terminating() && ShallowerFields(height, [f], bound)
      ensures f.field.alias.Some? && f.field.alias.value != "" ==> r.responseName == f.field.alias.value
      ensures f.field.alias.None? || f.field.alias.value == "" ==> r.responseName == f.field.name
      ensures r.fieldName == f.field.name && r.fieldType == f.field.fieldType && r.args == f.field.args
      ensures r.conditions.None? <==> f.conditions.None? || f.conditions.value == []
      ensures r.conditions.Some? ==>
        && |r.conditions.value| == |f.conditions.value|
        && forall i | 0 <= i < |r.conditions.value| ::
             && r.conditions.value[i].variableName == f.conditions.value[i].variableName
             && r.conditions.value[i].inverted == f.conditions.value[i].inverted
             && r.conditions.value[i].kind == f.conditions.value[i].kind
      ensures r.nested.Some? <==> f.field.selectionSet.Some?
      ensures r.nested.Some? ==> r.nested.value == TransformSelectionSet(f.field.selectionSet.value)
      decreases bound, 0, 0
    {
      LegacyField(
        OrElse(f.field.alias, f.field.name), f.field.name, f.field.fieldType, f.field.args,
        f.isConditional, ProjectConditions(f.conditions),
        f.field.description, f.field.isDeprecated, f.field.deprecationReason,
        f.field.hasOperationExclusiveDirectives,
        if f.field.selectionSet.Some? then Some(TransformSelectionSet(f.field.selectionSet.value)) else None)
    }

    /** `transformFieldsToLegacyIR`. */
    function TransformFields(fields: seq<MergedField>, ghost bound: nat): (r: seq<LegacyField>)
      requires Terminating() && ShallowerFields(height, fields, bound)
      ensures |r| == |fields|
      decreases bound, 1, |fields|
    {
      if fields == [] then []
      else TransformFields(fields[..|fields| - 1], bound) + [TransformField(fields[|fields| - 1], bound)]
    }

    /** The variant's fields after merging and transformation. */
    function VariantFields(ss: SelectionSet, variant: SelectionSet): seq<LegacyField>
      requires Terminating() && variant in TypeCaseOf(ss).variants
      decreases height(ss), 2, 0
    {
      assert LevelShallower(visitors, height, options.mergeInFieldsFromFragmentSpreads, ss);
      TransformFields(visitors.collectAndMergeFields(variant), height(ss))
    }

    /**
     * A variant is left out when it stands for every possible type of the
     * selection set and yields no fields.
     */
    predicate Redundant(ss: SelectionSet, variant: SelectionSet)
      requires Terminating() && variant in TypeCaseOf(ss).variants
      decreases height(ss), 2, 1
    {
      Covers(variant.possibleTypes, ss.possibleTypes) && |VariantFields(ss, variant)| < 1
    }

    /** The inline fragments one variant contributes: none, or one per possible type. */
    function VariantFragments(ss: SelectionSet, variant: SelectionSet): (r: seq<LegacyInlineFragment>)
      requires Terminating() && variant in TypeCaseOf(ss).variants
      ensures forall f | f in r :: f.possibleTypes == [f.typeCondition] && f.typeCondition in variant.possibleTypes
      decreases height(ss), 2, 2
    {
      if Redundant(ss, variant) then []
      else
        var fields := VariantFields(ss, variant);
        var spreads := SpreadNames(CollectedSpreads(ss, variant.possibleTypes));
        seq(|variant.possibleTypes|, i requires 0 <= i < |variant.possibleTypes| =>
          LegacyInlineFragment(variant.possibleTypes[i], [variant.possibleTypes[i]], fields, spreads))
    }

    /** The `flatMap` over the first `n` variants. */
    function InlineFragments(ss: SelectionSet, n: nat): (r: seq<LegacyInlineFragment>)
      requires Terminating() && n <= |TypeCaseOf(ss).variants|
      ensures forall f | f in r :: f.possibleTypes == [f.typeCondition]
      decreases height(ss), 3, n
    {
      if n == 0 then []
      else InlineFragments(ss, n - 1) + VariantFragments(ss, TypeCaseOf(ss).variants[n - 1])
    }

    /** `transformSelectionSetToLegacyIR`. */
    function TransformSelectionSet(ss: SelectionSet): (r: LegacySelectionSet)
      requires Terminating()
      ensures |r.fields| == |visitors.collectAndMergeFields(TypeCaseOf(ss).default)|
      ensures forall n :: n in r.fragmentSpreads <==> ReachesName(ss, ss.possibleTypes, n)
      ensures forall f | f in r.inlineFragments :: f.possibleTypes == [f.typeCondition]
      ensures forall n :: Get(r.inlineFragmentsByType, n).Some? <==>
        HasTypeName(r.inlineFragments, n)
      ensures forall n | Get(r.inlineFragmentsByType, n).Some? ::
        Get(r.inlineFragmentsByType, n).value in r.inlineFragments &&
        Get(r.inlineFragmentsByType, n).value.typeCondition.name == n
      decreases height(ss), 4, 0
    {
      SpreadNamesExactly(ss, ss.possibleTypes);
      var typeCase := TypeCaseOf(ss);
      assert LevelShallower(visitors, height, options.mergeInFieldsFromFragmentSpreads, ss);
      var fields := TransformFields(visitors.collectAndMergeFields(typeCase.default), height(ss));
      var inlineFragments := InlineFragments(ss, |typeCase.variants|);
      LegacySelectionSet(fields, SpreadNames(CollectedSpreads(ss, ss.possibleTypes)), inlineFragments,
                         IndexByTypeName(inlineFragments))
    }

    /** The legacy operation stored under `name`: its selection set transformed, with the referenced fragments and the operation id. */
    function LegacyOperationOf(name: string, op: CompiledOperation): LegacyOperation
      requires Terminating()
    {
      var fragmentsReferenced := visitors.collectFragmentsReferenced(op.selectionSet, context.fragments);
      var id := visitors.generateOperationId(op, context.fragments, fragmentsReferenced);
      LegacyOperation(op.filePath, name, op.operationType, op.rootType, op.variables, op.source,
                      TransformSelectionSet(op.selectionSet), fragmentsReferenced, id.sourceWithFragments, id.operationId)
    }

    /** The legacy fragment: its declared type as `typeCondition`, its selection set's possible types, the rest kept. */
    function LegacyFragmentOf(fragment: CompiledFragment): LegacyFragment
      requires Terminating()
    {
      LegacyFragment(fragment.fragmentType, fragment.selectionSet.possibleTypes, fragment.fragmentName,
                     fragment.filePath, fragment.source, TransformSelectionSet(fragment.selectionSet))
    }

    /** The inline fragment `f` stands for one possible type of a kept `variant`. */
    predicate FromVariant(ss: SelectionSet, f: LegacyInlineFragment, variant: SelectionSet)
      requires Terminating() && variant in TypeCaseOf(ss).variants
    {
      && !Redundant(ss, variant)
      && f.typeCondition in variant.possibleTypes
      && f.possibleTypes == [f.typeCondition]
      && f.fields == VariantFields(ss, variant)
      && f.fragmentSpreads == SpreadNames(CollectedSpreads(ss, variant.possibleTypes))
    }

    /**
     * Every inline fragment comes from a kept variant: it stands for one of
     * the variant's possible types alone, with the variant's fields and the
     * names of the spreads that apply to all of the variant's types.
     */
    lemma {:induction false} InlineFragmentsFromVariants(ss: SelectionSet, n: nat)
      requires Terminating() && n <= |TypeCaseOf(ss).variants|
      ensures forall f | f in InlineFragments(ss, n) :: exists k | 0 <= k < n :: FromVariant(ss, f, TypeCaseOf(ss).variants[k])
    {
      if n > 0 {
        InlineFragmentsFromVariants(ss, n - 1);
        var variant := TypeCaseOf(ss).variants[n - 1];
        forall f | f in InlineFragments(ss, n)
          ensures exists k | 0 <= k < n :: FromVariant(ss, f, TypeCaseOf(ss).variants[k])
        {
          if f in InlineFragments(ss, n - 1) {
            var k :| 0 <= k < n - 1 && FromVariant(ss, f, TypeCaseOf(ss).variants[k]);
          } else {
            var fragments := VariantFragments(ss, variant);
            assert f in fragments;
            assert !Redundant(ss, variant);
            var i :| 0 <= i < |fragments| && fragments[i] == f;
            assert FromVariant(ss, f, variant);
          }
        }
      }
    }

    /** Every possible type of every kept variant gets its inline fragment. */
    lemma {:induction false} KeptVariantsDenormalised(ss: SelectionSet, n: nat)
      requires Terminating() && n <= |TypeCaseOf(ss).variants|
      ensures forall k, t | 0 <= k < n && !Redundant(ss, TypeCaseOf(ss).variants[k]) && t in TypeCaseOf(ss).variants[k].possibleTypes ::
        LegacyInlineFragment(t, [t], VariantFields(ss, TypeCaseOf(ss).variants[k]),
                             SpreadNames(CollectedSpreads(ss, TypeCaseOf(ss).variants[k].possibleTypes)))
        in InlineFragments(ss, n)
    {
      if n > 0 {
        KeptVariantsDenormalised(ss, n - 1);
        var variant := TypeCaseOf(ss).variants[n - 1];
        forall t | !Redundant(ss, variant) && t in variant.possibleTypes
          ensures LegacyInlineFragment(t, [t], VariantFields(ss, variant), SpreadNames(CollectedSpreads(ss, variant.possibleTypes)))
                  in VariantFragments(ss, variant)
        {
          var i :| 0 <= i < |variant.possibleTypes| && variant.possibleTypes[i] == t;
          assert VariantFragments(ss, variant)[i].typeCondition == t;
        }
      }
    }

    /** A redundant variant contributes no inline fragment. */
    lemma RedundantVariantDropped(ss: SelectionSet, variant: SelectionSet)
      requires Terminating() && variant in TypeCaseOf(ss).variants
      requires Covers(variant.possibleTypes, ss.possibleTypes)
      requires VariantFields(ss, variant) == []
      ensures VariantFragments(ss, variant) == []
      ensures forall f | f in TransformSelectionSet(ss).inlineFragments :: !FromVariant(ss, f, variant)
    {
    }

    /**
     * `r` is the legacy form of the merged field `f`: named by its alias or
     * else its name, keeping its conditions only when there are some, and
     * with a nested legacy selection set exactly when it had a selection set.
     */
    predicate Projected(r: LegacyField, f: MergedField)
      requires Terminating()
    {
      && r.responseName == OrElse(f.field.alias, f.field.name)
      && r.fieldName == f.field.name
      && r.fieldType == f.field.fieldType
      && r.args == f.field.args
      && r.isConditional == f.isConditional
      && (r.conditions.None? <==> f.conditions.None? || f.conditions.value == [])
      && r.conditions == ProjectConditions(f.conditions)
      && r.description == f.field.description
      && r.isDeprecated == f.field.isDeprecated
      && r.deprecationReason == f.field.deprecationReason
      && r.hasOperationExclusiveDirectives == f.field.hasOperationExclusiveDirectives
      && (r.nested.Some? <==> f.field.selectionSet.Some?)
      && (r.nested.Some? ==> r.nested.value == TransformSelectionSet(f.field.selectionSet.value))
    }

    /** Field projection keeps the order and number of the merged fields, projecting each. */
    lemma {:induction false} FieldProjection(fields: seq<MergedField>, bound: nat)
      requires Terminating() && ShallowerFields(height, fields, bound)
      ensures |TransformFields(fields, bound)| == |fields|
      ensures forall i | 0 <= i < |fields| :: Projected(TransformFields(fields, bound)[i], fields[i])
    {
      if fields != [] {
        var n := |fields| - 1;
        var init := fields[..n];
        FieldProjection(init, bound);
        var r := TransformFields(fields, bound);
        assert r == TransformFields(init, bound) + [TransformField(fields[n], bound)];
        forall i | 0 <= i < |fields| ensures Projected(r[i], fields[i]) {
          if i < n {
            assert r[i] == TransformFields(init, bound)[i] && fields[i] == init[i];
          }
        }
      }
    }

    /** `collectFragmentSpreads`. */
    method CollectFragmentSpreads(ss: SelectionSet, scope: seq<NamedType>) returns (r: seq<Selection>)
      ensures r == CollectedSpreads(ss, scope)
      decreases ss
    {
      var fragmentSpreads: seq<Selection> := [];
      for i := 0 to |ss.selections|
        invariant fragmentSpreads == SpreadWalk(ss, i, scope)
      {
        var selection := ss.selections[i];
        assert SpreadWalk(ss, i + 1, scope) == SpreadWalk(ss, i, scope) + Pushed(ss, i, scope);
        match selection {
          case FragmentSpread(_, _) =>
            fragmentSpreads := fragmentSpreads + [selection];
          case TypeCondition(_, inner) =>
            if Covers(inner.possibleTypes, scope) {
              var nested := CollectFragmentSpreads(inner, scope);
              fragmentSpreads := fragmentSpreads + nested;
            }
          case BooleanCondition(_, _, inner) =>
            var nested := CollectFragmentSpreads(inner, scope);
            fragmentSpreads := fragmentSpreads + nested;
          case Field(_) =>
        }
      }
      r := Dedup(fragmentSpreads);
    }

    /** Transforming one more field appends its legacy field. */
    lemma TransformFieldsSnoc(fields: seq<MergedField>, i: nat, bound: nat)
      requires Terminating() && ShallowerFields(height, fields, bound) && i < |fields|
      ensures ShallowerFields(height, fields[..i], bound) && ShallowerFields(height, [fields[i]], bound)
      ensures TransformFields(fields[..i + 1], bound) == TransformFields(fields[..i], bound) + [TransformField(fields[i], bound)]
    {
      assert fields[..i + 1][..i] == fields[..i];
      assert fields[..i + 1][i] == fields[i];
    }

    /** `transformFieldsToLegacyIR`. */
    method TransformFieldsToLegacyIR(fields: seq<MergedField>, ghost bound: nat) returns (r: seq<LegacyField>)
      requires Terminating() && ShallowerFields(height, fields, bound)
      ensures r == TransformFields(fields, bound)
      decreases bound, 0
    {
      r := [];
      for i := 0 to |fields|
        invariant r == TransformFields(fields[..i], bound)
      {
        var f := fields[i];
        var nested := None;
        if f.field.selectionSet.Some? {
          var legacy := TransformSelectionSetToLegacyIR(f.field.selectionSet.value);
          nested := Some(legacy);
        }
        TransformFieldsSnoc(fields, i, bound);
        r := r + [LegacyField(
          OrElse(f.field.alias, f.field.name), f.field.name, f.field.fieldType, f.field.args,
          f.isConditional, ProjectConditions(f.conditions),
          f.field.description, f.field.isDeprecated, f.field.deprecationReason,
          f.field.hasOperationExclusiveDirectives, nested)];
      }
      assert fields[..|fields|] == fields;
    }

    /** The `flatMap` over one more variant appends that variant's inline fragments. */
    lemma InlineFragmentsSnoc(ss: SelectionSet, i: nat)
      requires Terminating() && i < |TypeCaseOf(ss).variants|
      ensures TypeCaseOf(ss).variants[i] in TypeCaseOf(ss).variants
      ensures InlineFragments(ss, i + 1) == InlineFragments(ss, i) + VariantFragments(ss, TypeCaseOf(ss).variants[i])
    {
    }

    /** The `flatMap` of `transformSelectionSetToLegacyIR` over the variants of the type case. */
    method TransformVariants(ss: SelectionSet, typeCase: TypeCase) returns (inlineFragments: seq<LegacyInlineFragment>)
      requires Terminating() && typeCase == TypeCaseOf(ss)
      ensures inlineFragments == InlineFragments(ss, |typeCase.variants|)
      decreases height(ss), 1
    {
      assert LevelShallower(visitors, height, options.mergeInFieldsFromFragmentSpreads, ss);
      inlineFragments := [];
      for i := 0 to |typeCase.variants|
        invariant inlineFragments == InlineFragments(ss, i)
      {
        var variant := typeCase.variants[i];
        InlineFragmentsSnoc(ss, i);
        var variantFields := TransformFieldsToLegacyIR(visitors.collectAndMergeFields(variant), height(ss));
        assert VariantFields(ss, variant) == variantFields;
        if Covers(variant.possibleTypes, ss.possibleTypes) && |variantFields| < 1 {
          RedundantVariant(ss, variant, variantFields);
          continue;
        }
        var spreads := CollectFragmentSpreads(ss, variant.possibleTypes);
        var names := SpreadNames(spreads);
        var perType := seq(|variant.possibleTypes|, j requires 0 <= j < |variant.possibleTypes| =>
          LegacyInlineFragment(variant.possibleTypes[j], [variant.possibleTypes[j]], variantFields, names));
        KeptVariant(ss, variant, variantFields, names, perType);
        inlineFragments := inlineFragments + perType;
      }
    }

    /** A variant whose transformed fields are empty and that covers every possible type adds nothing. */
    lemma RedundantVariant(ss: SelectionSet, variant: SelectionSet, fields: seq<LegacyField>)
      requires Terminating() && variant in TypeCaseOf(ss).variants
      requires fields == VariantFields(ss, variant)
      requires Covers(variant.possibleTypes, ss.possibleTypes) && |fields| < 1
      ensures VariantFragments(ss, variant) == []
    {
    }

    /** Any other variant adds one inline fragment per possible type, sharing its fields and spreads. */
    lemma KeptVariant(ss: SelectionSet, variant: SelectionSet, fields: seq<LegacyField>, names: seq<string>,
                      perType: seq<LegacyInlineFragment>)
      requires Terminating() && variant in TypeCaseOf(ss).variants
      requires fields == VariantFields(ss, variant)
      requires !(Covers(variant.possibleTypes, ss.possibleTypes) && |fields| < 1)
      requires names == SpreadNames(CollectedSpreads(ss, variant.possibleTypes))
      requires perType == seq(|variant.possibleTypes|, j requires 0 <= j < |variant.possibleTypes| =>
        LegacyInlineFragment(variant.possibleTypes[j], [variant.possibleTypes[j]], fields, names))
      ensures VariantFragments(ss, variant) == perType
    {
    }

    /** `transformSelectionSetToLegacyIR`. */
    method TransformSelectionSetToLegacyIR(ss: SelectionSet) returns (r: LegacySelectionSet)
      requires Terminating()
      ensures r == TransformSelectionSet(ss)
      decreases height(ss), 2
    {
      var typeCase := visitors.typeCase(ss, options.mergeInFieldsFromFragmentSpreads);
      assert LevelShallower(visitors, height, options.mergeInFieldsFromFragmentSpreads, ss);
      var fields := TransformFieldsToLegacyIR(visitors.collectAndMergeFields(typeCase.default), height(ss));
      var inlineFragments := TransformVariants(ss, typeCase);
      var byType := IndexInlineFragments(inlineFragments);
      var fragmentSpreads := CollectFragmentSpreads(ss, ss.possibleTypes);
      r := LegacySelectionSet(fields, SpreadNames(fragmentSpreads), inlineFragments, byType);
    }

    /** Each compiled operation, under its key, as the legacy operation it becomes. */
    function OperationEntries(): (r: seq<Entry<LegacyOperation>>)
      requires Terminating()
      ensures Keys(r) == Keys(context.operations)
      ensures |r| == |context.operations|
      ensures forall i | 0 <= i < |r| :: r[i].value == LegacyOperationOf(context.operations[i].key, context.operations[i].value)
    {
      var entries := context.operations;
      var r := seq(|entries|, i requires 0 <= i < |entries| => Entry(entries[i].key, LegacyOperationOf(entries[i].key, entries[i].value)));
      assert Keys(r) == Keys(entries);
      r
    }

    /** Each compiled fragment, under its key, as the legacy fragment it becomes. */
    function FragmentEntries(): (r: seq<Entry<LegacyFragment>>)
      requires Terminating()
      ensures Keys(r) == Keys(context.fragments)
      ensures |r| == |context.fragments|
      ensures forall i | 0 <= i < |r| ::
        && r[i].value == LegacyFragmentOf(context.fragments[i].value)
        && r[i].value.typeCondition == context.fragments[i].value.fragmentType
        && r[i].value.possibleTypes == context.fragments[i].value.selectionSet.possibleTypes
    {
      var entries := context.fragments;
      var r := seq(|entries|, i requires 0 <= i < |entries| => Entry(entries[i].key, LegacyFragmentOf(entries[i].value)));
      assert Keys(r) == Keys(entries);
      r
    }

    /**
     * `transformIR`: one legacy operation per compiled operation and one
     * legacy fragment per compiled fragment, under the same keys and in the
     * same order.
     */
    method TransformIR() returns (r: LegacyContext)
      requires Terminating()
      requires Distinct(Keys(context.operations)) && Distinct(Keys(context.fragments))
      ensures Keys(r.operations) == Keys(context.operations)
      ensures forall i | 0 <= i < |r.operations| ::
        r.operations[i].value == LegacyOperationOf(context.operations[i].key, context.operations[i].value)
      ensures Keys(r.fragments) == Keys(context.fragments)
      ensures forall i | 0 <= i < |r.fragments| ::
        && r.fragments[i].value == LegacyFragmentOf(context.fragments[i].value)
        && r.fragments[i].value.typeCondition == context.fragments[i].value.fragmentType
        && r.fragments[i].value.possibleTypes == context.fragments[i].value.selectionSet.possibleTypes
      ensures r.schema == context.schema && r.typesUsed == context.typesUsed && r.options == options
    {
      var operations := TransformOperations();
      var fragments := TransformFragments();
      r := LegacyContext(context.schema, operations, fragments, context.typesUsed, options);
    }

    /** The loop of `transformIR` over the compiled operations. */
    method TransformOperations() returns (operations: seq<Entry<LegacyOperation>>)
      requires Terminating() && Distinct(Keys(context.operations))
      ensures operations == OperationEntries()
    {
      ghost var entries := OperationEntries();
      operations := [];
      for i := 0 to |context.operations|
        invariant operations == entries[..i]
      {
        var name, operation := context.operations[i].key, context.operations[i].value;
        var fragmentsReferenced := visitors.collectFragmentsReferenced(operation.selectionSet, context.fragments);
        var id := visitors.generateOperationId(operation, context.fragments, fragmentsReferenced);
        var selection := TransformSelectionSetToLegacyIR(operation.selectionSet);
        PutNextEntry(entries, i);
        operations := Put(operations, name, LegacyOperation(operation.filePath, name, operation.operationType, operation.rootType,
                                                            operation.variables, operation.source, selection,
                                                            fragmentsReferenced, id.sourceWithFragments, id.operationId));
      }
    }

    /** The loop of `transformIR` over the compiled fragments. */
    method TransformFragments() returns (fragments: seq<Entry<LegacyFragment>>)
      requires Terminating() && Distinct(Keys(context.fragments))
      ensures fragments == FragmentEntries()
    {
      ghost var entries := FragmentEntries();
      fragments := [];
      for i := 0 to |context.fragments|
        invariant fragments == entries[..i]
      {
        var name, fragment := context.fragments[i].key, context.fragments[i].value;
        var selection := TransformSelectionSetToLegacyIR(fragment.selectionSet);
        PutNextEntry(entries, i);
        fragments := Put(fragments, name, LegacyFragment(fragment.fragmentType, fragment.selectionSet.possibleTypes,
                                                         fragment.fragmentName, fragment.filePath, fragment.source, selection));
      }
    }
  }

  /**
   * `compileToLegacyIR`: the raw IR of the document, transformed; without
   * options, field merging from fragment spreads is switched on.
   */
  method CompileToLegacyIR(schema: Schema, document: seq<DefinitionNode>, options: Option<Options>,
                           valueFromValueNode: ValueNode -> Value, addTypename: seq<DefinitionNode> -> seq<DefinitionNode>,
                           visitors: Visitors, ghost height: SelectionSet -> nat)
    returns (r: Result<LegacyContext, CompileError>, ghost compiled: Result<CompilerContext, CompileError>,
             ghost sites: seq<SpreadRecord>, ghost transformer: LegacyIRTransformer?)
    requires VisitorsTerminate(visitors, height, OptionsOrDefault(options).mergeInFieldsFromFragmentSpreads)
    ensures r.Ok? <==> compiled.Ok?
    ensures r.Err? ==> r.error == compiled.error
    ensures var doc := Prepared(document, OptionsOrDefault(options), addTypename);
      r.Err? <==> (exists i | 0 <= i < |doc| :: Compiler.DefinitionFails(schema, doc[i])) || UnknownSpread(schema, doc)
    ensures var doc := Prepared(document, OptionsOrDefault(options), addTypename);
      (exists i | 0 <= i < |doc| :: Compiler.DefinitionFails(schema, doc[i])) ==> r == Err(DocumentErrorFrom(schema, doc, 0))
    ensures var doc := Prepared(document, OptionsOrDefault(options), addTypename);
      var first := FirstUndefined(doc, DocumentSpreadOrder(schema, doc, |doc|));
      (forall i | 0 <= i < |doc| :: !Compiler.DefinitionFails(schema, doc[i])) ==>
        && (r.Err? <==> first.Some?)
        && (r.Err? ==> r.error == FragmentNotFound(first.value))
    ensures r.Ok? ==> var doc := Prepared(document, OptionsOrDefault(options), addTypename);
      && WellFormedIR(schema, compiled.value, sites)
      && OperationTableFrom(schema, valueFromValueNode, doc, |doc|, compiled.value.operations)
      && FragmentTableFrom(schema, valueFromValueNode, doc, |doc|, compiled.value.fragments)
      && Compiler.PushedInOrder(sites, 0, DocumentSpreadOrder(schema, doc, |doc|))
      && DocumentRecorded(schema, doc, |doc|, r.value.typesUsed)
    ensures r.Ok? ==> r.value.options == OptionsOrDefault(options)
    ensures r.Ok? ==>
      && compiled.value.schema == schema && compiled.value.options == OptionsOrDefault(options)
      && transformer != null && transformer.context == compiled.value
      && transformer.options == OptionsOrDefault(options) && transformer.visitors == visitors
      && transformer.Terminating()
      && r.value.schema == schema && r.value.typesUsed == compiled.value.typesUsed
      && Keys(r.value.operations) == Keys(compiled.value.operations)
      && (forall i | 0 <= i < |r.value.operations| ::
            r.value.operations[i].value == transformer.LegacyOperationOf(compiled.value.operations[i].key, compiled.value.operations[i].value))
      && Keys(r.value.fragments) == Keys(compiled.value.fragments)
      && (forall i | 0 <= i < |r.value.fragments| ::
            r.value.fragments[i].value == transformer.LegacyFragmentOf(compiled.value.fragments[i].value))
    ensures r.Ok? ==> var doc := Prepared(document, OptionsOrDefault(options), addTypename);
      && (forall n :: n in Keys(r.value.operations) <==> LastOperationNamed(doc, |doc|, n).Some?)
      && (forall n :: n in Keys(r.value.fragments) <==> LastFragmentNamed(doc, |doc|, n).Some?)
  {
    var resolvedOptions := OptionsOrDefault(options);
    var context;
    context, sites := CompileToIR(schema, document, resolvedOptions, valueFromValueNode, addTypename);
    compiled := context;
    transformer := null;
    if context.Err? {
      return Err(context.error), compiled, sites, transformer;
    }
    var legacyTransformer := new LegacyIRTransformer(context.value, resolvedOptions, visitors, height);
    transformer := legacyTransformer;
    var legacy := legacyTransformer.TransformIR();
    return Ok(legacy), compiled, sites, transformer;
  }
}
