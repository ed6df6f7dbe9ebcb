/**
 * Rewriting of the `@skip` and `@include` directives (section 3.13 of the
 * GraphQL specification, June 2018) on a compiled selection: a literal
 * argument keeps or drops the selection outright, a variable argument wraps it
 * in a `BooleanCondition` that is decided at run time.
 */
module BooleanConditions {
  import opened Wrappers
  import opened Seqs
  import opened GraphQL
  import opened Ast
  import opened RawIR

  predicate IsConditionalDirective(d: DirectiveNode) {
    d.name == "skip" || d.name == "include"
  }

  /** A conditional directive the loop cannot pass: its argument is missing or a literal. */
  predicate Decisive(d: DirectiveNode) {
    IsConditionalDirective(d) && (d.arguments == [] || d.arguments[0].value.BooleanValueNode?)
  }

  /** The `k`-th directive is the first decisive one. */
  predicate DecidedAt(directives: seq<DirectiveNode>, k: int) {
    && 0 <= k < |directives|
    && Decisive(directives[k])
    && forall j | 0 <= j < k :: !Decisive(directives[j])
  }

  /** The first decisive directive is `@skip(if: true)` or `@include(if: false)`. */
  predicate DropsSelection(directives: seq<DirectiveNode>) {
    exists k | 0 <= k < |directives| :: DecidedAt(directives, k) && directives[k].arguments != []
      && (directives[k].name == "skip") == directives[k].arguments[0].value.value
  }

  /** The first decisive directive has no argument at all. */
  predicate LacksArgument(directives: seq<DirectiveNode>) {
    exists k | 0 <= k < |directives| :: DecidedAt(directives, k) && directives[k].arguments == []
  }

  /** Past a directive that is not decisive, the first decisive one is found one place further on. */
  lemma DecidedAtShift(directives: seq<DirectiveNode>)
    requires directives != [] && !Decisive(directives[0])
    ensures DropsSelection(directives) <==> DropsSelection(directives[1..])
    ensures LacksArgument(directives) <==> LacksArgument(directives[1..])
  {
    var rest := directives[1..];
    if DropsSelection(directives) {
      var k :| 0 <= k < |directives| && DecidedAt(directives, k) && directives[k].arguments != []
        && (directives[k].name == "skip") == directives[k].arguments[0].value.value;
      DecidedOneOn(directives, k);
    }
    if DropsSelection(rest) {
      var k :| 0 <= k < |rest| && DecidedAt(rest, k) && rest[k].arguments != [] && (rest[k].name == "skip") == rest[k].arguments[0].value.value;
      DecidedOneOn(directives, k + 1);
    }
    if LacksArgument(directives) {
      var k :| 0 <= k < |directives| && DecidedAt(directives, k) && directives[k].arguments == [];
      DecidedOneOn(directives, k);
    }
    if LacksArgument(rest) {
      var k :| 0 <= k < |rest| && DecidedAt(rest, k) && rest[k].arguments == [];
      DecidedOneOn(directives, k + 1);
    }
  }

  lemma DecidedOneOn(directives: seq<DirectiveNode>, k: int)
    requires directives != [] && !Decisive(directives[0]) && 0 <= k < |directives|
    ensures DecidedAt(directives, k) ==> k > 0
    ensures k > 0 ==> directives[k] == directives[1..][k - 1]
    ensures k > 0 ==> (DecidedAt(directives, k) <==> DecidedAt(directives[1..], k - 1))
  {
    var rest := directives[1..];
    if k > 0 {
      assert rest[k - 1] == directives[k];
      if DecidedAt(rest, k - 1) {
        forall j | 0 <= j < k ensures !Decisive(directives[j]) {
          if j > 0 { assert directives[j] == rest[j - 1]; }
        }
      }
      if DecidedAt(directives, k) {
        forall j | 0 <= j < k - 1 ensures !Decisive(rest[j]) {
          assert rest[j] == directives[j + 1];
        }
      }
    }
  }

  /** A decisive first directive is the one that decides. */
  lemma DecidedFirst(directives: seq<DirectiveNode>)
    requires directives != [] && Decisive(directives[0])
    ensures forall k :: DecidedAt(directives, k) <==> k == 0
  {
  }

  /** The name of the directive the loop fails on: the first decisive one, which has no argument. */
  function MissingArgumentName(directives: seq<DirectiveNode>): (r: string)
    requires LacksArgument(directives)
    ensures exists k | 0 <= k < |directives| :: DecidedAt(directives, k) && directives[k].arguments == [] && directives[k].name == r
    decreases |directives|
  {
    if Decisive(directives[0]) then
      DecidedFirst(directives);
      directives[0].name
    else
      DecidedAtShift(directives);
      var r := MissingArgumentName(directives[1..]);
      var k :| 0 <= k < |directives[1..]| && DecidedAt(directives[1..], k) && directives[1..][k].arguments == [] && directives[1..][k].name == r;
      DecidedOneOn(directives, k + 1);
      r
  }

  /**
   * What the directive loop makes of `selection` given the directives still
   * to visit. The value of a conditional directive is its first argument;
   * one with no argument at all makes the source fail on `arguments[0]`.
   * Whether the selection is dropped or the loop fails depends on the
   * directives alone.
   */
  function ApplyDirectives(selection: Selection, directives: seq<DirectiveNode>, possibleTypes: seq<NamedType>)
    : (r: Result<Option<Selection>, CompileError>)
    ensures r.Err? <==> LacksArgument(directives)
    ensures r == Ok(None) <==> DropsSelection(directives)
    ensures r.Err? ==> r.error == MissingDirectiveArgument(MissingArgumentName(directives))
    decreases |directives|
  {
    if directives == [] then Ok(Some(selection))
    else
      var d := directives[0];
      if !IsConditionalDirective(d) then
        DecidedAtShift(directives);
        ApplyDirectives(selection, directives[1..], possibleTypes)
      else if d.arguments == [] then
        DecidedFirst(directives);
        Err(MissingDirectiveArgument(d.name))
      else
        match d.arguments[0].value
        case BooleanValueNode(b) =>
          DecidedFirst(directives);
          if (d.name == "skip") == b then Ok(None) else Ok(Some(selection))
        case VariableNode(v) =>
          DecidedAtShift(directives);
          var wrapped := BooleanCondition(v, d.name == "skip", SelectionSet(possibleTypes, [selection]));
          ApplyDirectives(wrapped, directives[1..], possibleTypes)
        case _ =>
          DecidedAtShift(directives);
          ApplyDirectives(selection, directives[1..], possibleTypes)
  }

  /**
   * `wrapInBooleanConditionsIfNeeded`: a dropped selection stays dropped;
   * otherwise the directives of the AST node are applied in source order.
   */
  method WrapInBooleanConditionsIfNeeded(selection: Option<Selection>, selectionNode: SelectionNode, possibleTypes: seq<NamedType>)
    returns (r: Result<Option<Selection>, CompileError>)
    ensures selection.None? ==> r == Ok(None)
    ensures selection.Some? ==> r == ApplyDirectives(selection.value, selectionNode.directives, possibleTypes)
  {
    if selection.None? {
      return Ok(None);
    }
    var directives := selectionNode.directives;
    var current := selection.value;
    for i := 0 to |directives|
      invariant ApplyDirectives(current, directives[i..], possibleTypes)
             == ApplyDirectives(selection.value, directives, possibleTypes)
    {
      var directive := directives[i];
      assert directives[i..][1..] == directives[i + 1..];
      var directiveName := directive.name;
      if directiveName == "skip" || directiveName == "include" {
        if directive.arguments == [] {
          return Err(MissingDirectiveArgument(directiveName));
        }
        match directive.arguments[0].value {
          case BooleanValueNode(value) =>
            if directiveName == "skip" {
              return if value then Ok(None) else Ok(Some(current));
            } else {
              return if value then Ok(Some(current)) else Ok(None);
            }
          case VariableNode(name) =>
            current := BooleanCondition(name, directiveName == "skip", SelectionSet(possibleTypes, [current]));
          case _ =>
        }
      }
    }
    return Ok(Some(current));
  }

  /** One run-time condition: the variable and whether it came from `@skip`. */
  datatype VariableCondition = VariableCondition(variableName: string, inverted: bool)

  /** `selection` wrapped by each condition in turn, the first condition innermost. */
  function Nest(selection: Selection, conditions: seq<VariableCondition>, possibleTypes: seq<NamedType>): Selection
    decreases |conditions|
  {
    if conditions == [] then selection
    else
      var c := conditions[0];
      Nest(BooleanCondition(c.variableName, c.inverted, SelectionSet(possibleTypes, [selection])), conditions[1..], possibleTypes)
  }

  /** No conditional directive has a literal or missing argument: every one is decided at run time. */
  predicate NoLiteralCondition(directives: seq<DirectiveNode>) {
    forall d | d in directives && IsConditionalDirective(d) ::
      d.arguments != [] && !d.arguments[0].value.BooleanValueNode?
  }

  /** The run-time conditions the directives contribute, in source order; `inverted` exactly for `@skip`. */
  function VariableConditions(directives: seq<DirectiveNode>): seq<VariableCondition> {
    if directives == [] then []
    else
      var d := directives[0];
      if IsConditionalDirective(d) && d.arguments != [] && d.arguments[0].value.VariableNode?
      then [VariableCondition(d.arguments[0].value.name, d.name == "skip")] + VariableConditions(directives[1..])
      else VariableConditions(directives[1..])
  }

  /**
   * With no literal condition the selection survives, wrapped by one
   * `BooleanCondition` per variable directive in source order, each holding
   * exactly the one selection inside it and the enclosing possible types.
   */
  lemma {:induction false} VariableDirectivesNest(selection: Selection, directives: seq<DirectiveNode>, possibleTypes: seq<NamedType>)
    requires NoLiteralCondition(directives)
    ensures ApplyDirectives(selection, directives, possibleTypes)
         == Ok(Some(Nest(selection, VariableConditions(directives), possibleTypes)))
    decreases |directives|
  {
    if directives != [] {
      var d := directives[0];
      assert forall x | x in directives[1..] :: x in directives;
      assert IsConditionalDirective(d) ==> d in directives;
      if IsConditionalDirective(d) && d.arguments[0].value.VariableNode? {
        var wrapped := BooleanCondition(d.arguments[0].value.name, d.name == "skip", SelectionSet(possibleTypes, [selection]));
        VariableDirectivesNest(wrapped, directives[1..], possibleTypes);
      } else {
        VariableDirectivesNest(selection, directives[1..], possibleTypes);
      }
    }
  }

  /**
   * The first literal condition decides: `@skip(if: true)` and
   * `@include(if: false)` drop the selection, `@skip(if: false)` and
   * `@include(if: true)` return it as wrapped so far, and the directives after
   * it are not looked at.
   */
  lemma {:induction false} LiteralDirectiveDecides(selection: Selection, before: seq<DirectiveNode>, d: DirectiveNode,
                                                   after: seq<DirectiveNode>, possibleTypes: seq<NamedType>)
    requires NoLiteralCondition(before)
    requires IsConditionalDirective(d) && d.arguments != [] && d.arguments[0].value.BooleanValueNode?
    ensures ApplyDirectives(selection, before + [d] + after, possibleTypes)
         == if (d.name == "skip") == d.arguments[0].value.value then Ok(None)
            else Ok(Some(Nest(selection, VariableConditions(before), possibleTypes)))
    decreases |before|
  {
    var ds := before + [d] + after;
    if before == [] {
      assert ds[0] == d;
    } else {
      var b := before[0];
      assert ds[0] == b && ds[1..] == before[1..] + [d] + after;
      assert forall x | x in before[1..] :: x in before;
      assert IsConditionalDirective(b) ==> b in before;
      if IsConditionalDirective(b) && b.arguments[0].value.VariableNode? {
        var wrapped := BooleanCondition(b.arguments[0].value.name, b.name == "skip", SelectionSet(possibleTypes, [selection]));
        LiteralDirectiveDecides(wrapped, before[1..], d, after, possibleTypes);
      } else {
        LiteralDirectiveDecides(selection, before[1..], d, after, possibleTypes);
      }
    }
  }

  /** The selection under its boolean wrappers. */
  function Unwrap(s: Selection): Selection {
    if s.BooleanCondition? && |s.selectionSet.selections| == 1 then Unwrap(s.selectionSet.selections[0]) else s
  }

  /**
   * Rewriting changes neither what the selection is under its wrappers nor
   * the fragment it spreads, and keeps it well formed where it is compiled.
   */
  lemma {:induction false} ApplyDirectivesPreserves(schema: Schema, selection: Selection, directives: seq<DirectiveNode>,
                                                    parentType: NamedType, possibleTypes: seq<NamedType>,
                                                    sites: seq<SpreadRecord>, used: set<NamedType>)
    requires ApplyDirectives(selection, directives, possibleTypes).Ok?
    requires ApplyDirectives(selection, directives, possibleTypes).value.Some?
    ensures var w := ApplyDirectives(selection, directives, possibleTypes).value.value;
      && Unwrap(w) == Unwrap(selection)
      && LevelSpreadName(w) == LevelSpreadName(selection)
      && (SelectionOK(schema, selection, parentType, possibleTypes, sites, used)
          ==> SelectionOK(schema, w, parentType, possibleTypes, sites, used))
    decreases |directives|
  {
    if directives != [] {
      var d := directives[0];
      if !IsConditionalDirective(d) {
        ApplyDirectivesPreserves(schema, selection, directives[1..], parentType, possibleTypes, sites, used);
      } else if d.arguments[0].value.VariableNode? {
        var wrapped := BooleanCondition(d.arguments[0].value.name, d.name == "skip", SelectionSet(possibleTypes, [selection]));
        ApplyDirectivesPreserves(schema, wrapped, directives[1..], parentType, possibleTypes, sites, used);
      } else if !d.arguments[0].value.BooleanValueNode? {
        ApplyDirectivesPreserves(schema, selection, directives[1..], parentType, possibleTypes, sites, used);
      }
    }
  }
}
