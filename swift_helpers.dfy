/**
 * The Swift code generator's helpers: rendering a GraphQL type reference as a
 * Swift type name, as a `GraphQLOutputType` case chain and as a map/flatMap
 * chain; building the properties of generated structs; and rendering field
 * arguments as a Swift dictionary literal.
 *
 * The case-changing and inflecting string functions the helpers call are
 * foreign and stay uninterpreted (`StringLibrary`); so does `JSON.stringify`
 * of a scalar.
 */
module SwiftHelpers {
  import opened Wrappers
  import opened Seqs
  import opened GraphQL
  import opened RawIR

  /** `camelCase` and `pascalCase` of change-case, `singularize` of inflected. */
  datatype StringLibrary = StringLibrary(
    camelCase: string -> string,
    pascalCase: string -> string,
    singularize: string -> string)

  // ----- Strings -----

  predicate EndsWithMark(s: string) {
    |s| > 0 && s[|s| - 1] == '?'
  }

  /** A GraphQL name: a letter or underscore, then letters, digits and underscores (section 2.1.9 of the GraphQL specification). */
  predicate IsGraphQLName(s: string) {
    && |s| > 0
    && !('0' <= s[0] <= '9')
    && forall i | 0 <= i < |s| :: s[i] == '_' || 'a' <= s[i] <= 'z' || 'A' <= s[i] <= 'Z' || '0' <= s[i] <= '9'
  }

  /** The number of occurrences of `c` in `s`. */
  function Count(c: char, s: string): nat {
    if s == [] then 0 else (if s[0] == c then 1 else 0) + Count(c, s[1..])
  }

  lemma {:induction false} CountConcat(c: char, a: string, b: string)
    ensures Count(c, a + b) == Count(c, a) + Count(c, b)
  {
    if a == [] {
      assert a + b == b;
    } else {
      assert (a + b)[0] == a[0] && (a + b)[1..] == a[1..] + b;
      CountConcat(c, a[1..], b);
    }
  }

  // ----- Swift type names -----

  /** `builtInScalarMap`: the Swift types of the five built-in GraphQL scalars. */
  const BuiltInScalarMap: map<string, string> :=
    map["String" := "String", "Int" := "Int", "Float" := "Double", "Boolean" := "Bool", "ID" := "GraphQLID"]

  /**
   * `typeNameForScalarType`: a built-in scalar becomes its Swift type; any other
   * scalar becomes the custom prefix followed by its name when custom scalars
   * pass through, and `String` otherwise.
   */
  function TypeNameForScalarType(options: Options, t: NamedType): (r: string)
    ensures t.name in BuiltInScalarMap ==> r == BuiltInScalarMap[t.name]
    ensures t.name !in BuiltInScalarMap && options.passthroughCustomScalars ==> r == options.customScalarsPrefix + t.name
    ensures t.name !in BuiltInScalarMap && !options.passthroughCustomScalars ==> r == "String"
  {
    if t.name in BuiltInScalarMap then BuiltInScalarMap[t.name]
    else if options.passthroughCustomScalars then options.customScalarsPrefix + t.name
    else "String"
  }

  /** The name a named type is rendered with: scalars through the scalar map, others as given or by their own name. */
  function BaseName(options: Options, n: NamedType, unmodifiedTypeName: Option<string>): string {
    if n.kind == ScalarKind then TypeNameForScalarType(options, n) else OrElse(unmodifiedTypeName, n.name)
  }

  /**
   * `typeNameFromGraphQLType(type, unmodifiedTypeName, isOptional)`; `None`
   * stands for an omitted argument. A `NonNull` wrapper renders its inner type
   * without `?`; otherwise the type is optional unless the caller said it is
   * not. A list renders as `[element]` with the element optional by default.
   */
  function TypeNameFromGraphQLType(options: Options, t: TypeRef, unmodifiedTypeName: Option<string>,
                                   isOptional: Option<bool>): (r: string)
    ensures !t.NonNull? && isOptional != Some(false) ==> |r| > 0 && r[|r| - 1] == '?'
    ensures (if t.NonNull? then t.ofType else t).List? ==> |r| > 0 && r[0] == '['
  {
    if t.NonNull? then TypeNameFromGraphQLType(options, t.ofType, unmodifiedTypeName, Some(false))
    else
      var optional := isOptional.None? || isOptional.value;
      var typeName :=
        if t.List? then "[" + TypeNameFromGraphQLType(options, t.ofType, unmodifiedTypeName, None) + "]"
        else BaseName(options, t.namedType, unmodifiedTypeName);
      if optional then typeName + "?" else typeName
  }

  /** A Swift type: a named type, an array, or an optional. */
  datatype SwiftType = SwiftNamed(name: string) | SwiftArray(element: SwiftType) | SwiftOptional(wrapped: SwiftType)

  /** Swift's spelling of a type: `T`, `[T]`, `T?`. */
  function Render(s: SwiftType): string {
    match s
    case SwiftNamed(name) => name
    case SwiftArray(element) => "[" + Render(element) + "]"
    case SwiftOptional(wrapped) => Render(wrapped) + "?"
  }

  /** The Swift type of a GraphQL type reference: nullable types are optionals, lists are arrays. */
  function SwiftTypeOf(options: Options, t: TypeRef, unmodifiedTypeName: Option<string>): SwiftType
    decreases t, 1
  {
    if t.NonNull? then SwiftCore(options, t.ofType, unmodifiedTypeName)
    else SwiftOptional(SwiftCore(options, t, unmodifiedTypeName))
  }

  /** The Swift type of a reference with its nullability set aside. */
  function SwiftCore(options: Options, t: TypeRef, unmodifiedTypeName: Option<string>): SwiftType
    decreases t, 0
  {
    match t
    case NonNull(inner) => SwiftCore(options, inner, unmodifiedTypeName)
    case List(inner) => SwiftArray(SwiftTypeOf(options, inner, unmodifiedTypeName))
    case Named(n) => SwiftNamed(BaseName(options, n, unmodifiedTypeName))
  }

  /**
   * The rendered type name is the Swift type the reference stands for: an
   * optional exactly when the reference is nullable and the caller did not
   * ask for a non-optional name.
   */
  lemma {:induction false} TypeNameRendersSwiftType(options: Options, t: TypeRef, u: Option<string>, isOptional: Option<bool>)
    ensures TypeNameFromGraphQLType(options, t, u, isOptional) ==
      Render(if t.NonNull? || isOptional == Some(false) then SwiftCore(options, t, u) else SwiftOptional(SwiftCore(options, t, u)))
  {
    match t
    case NonNull(inner) =>
      TypeNameRendersSwiftType(options, inner, u, Some(false));
    case List(inner) =>
      TypeNameRendersSwiftType(options, inner, u, None);
      assert Render(SwiftTypeOf(options, inner, u)) == TypeNameFromGraphQLType(options, inner, u, None);
    case Named(_) =>
  }

  /** Without an explicit `isOptional`, the type name is the Swift type of the reference. */
  lemma TypeNameIsSwiftTypeOf(options: Options, t: TypeRef, u: Option<string>)
    ensures TypeNameFromGraphQLType(options, t, u, None) == Render(SwiftTypeOf(options, t, u))
  {
    TypeNameRendersSwiftType(options, t, u, None);
  }

  /** The core of a reference is never an optional; when it is a named type, it carries the base name. */
  lemma {:induction false} CoreIsNotOptional(options: Options, t: TypeRef, u: Option<string>)
    ensures !SwiftCore(options, t, u).SwiftOptional?
    ensures SwiftCore(options, t, u).SwiftNamed? ==>
      SwiftCore(options, t, u).name == BaseName(options, GetNamedType(t), u)
  {
    if t.NonNull? {
      CoreIsNotOptional(options, t.ofType, u);
    }
  }

  /** A name that is not itself marked optional: a GraphQL name or one of the scalar spellings. */
  lemma BaseNameUnmarked(options: Options, n: NamedType, u: Option<string>)
    requires IsGraphQLName(n.name)
    requires u.Some? ==> !EndsWithMark(u.value)
    ensures !EndsWithMark(BaseName(options, n, u))
  {
    var s := BaseName(options, n, u);
    if n.kind == ScalarKind && n.name !in BuiltInScalarMap && options.passthroughCustomScalars {
      assert s[|s| - 1] == n.name[|n.name| - 1];
    }
  }

  /**
   * A type name ends in `?` exactly when the GraphQL type is nullable (for
   * named types with GraphQL names and an unmarked unmodified name).
   */
  lemma TypeNameMarksNullable(options: Options, t: TypeRef, u: Option<string>)
    requires IsGraphQLName(GetNamedType(t).name)
    requires u.Some? ==> !EndsWithMark(u.value)
    ensures EndsWithMark(TypeNameFromGraphQLType(options, t, u, None)) <==> !t.NonNull?
  {
    TypeNameIsSwiftTypeOf(options, t, u);
    var inner := if t.NonNull? then t.ofType else t;
    assert GetNamedType(inner) == GetNamedType(t);
    CoreIsNotOptional(options, inner, u);
    BaseNameUnmarked(options, GetNamedType(t), u);
  }

  /** The number of `List` wrappers of a reference. */
  function ListDepth(t: TypeRef): nat {
    match t
    case Named(_) => 0
    case List(inner) => 1 + ListDepth(inner)
    case NonNull(inner) => ListDepth(inner)
  }

  /** A type name opens one bracket per `List` wrapper, when the base name has none. */
  lemma {:induction false} TypeNameBrackets(options: Options, t: TypeRef, u: Option<string>, isOptional: Option<bool>)
    requires '[' !in BaseName(options, GetNamedType(t), u)
    ensures Count('[', TypeNameFromGraphQLType(options, t, u, isOptional)) == ListDepth(t)
  {
    var r := TypeNameFromGraphQLType(options, t, u, isOptional);
    var optional := isOptional.None? || isOptional.value;
    match t
    case NonNull(inner) =>
      TypeNameBrackets(options, inner, u, Some(false));
    case List(inner) =>
      var e := TypeNameFromGraphQLType(options, inner, u, None);
      TypeNameBrackets(options, inner, u, None);
      CountConcat('[', "[", e);
      CountConcat('[', "[" + e, "]");
      if optional {
        CountConcat('[', "[" + e + "]", "?");
      }
    case Named(n) =>
      var b := BaseName(options, n, u);
      CountAbsent('[', b);
      if optional {
        CountConcat('[', b, "?");
      }
  }

  lemma {:induction false} CountAbsent(c: char, s: string)
    requires c !in s
    ensures Count(c, s) == 0
  {
    if s != [] {
      CountAbsent(c, s[1..]);
    }
  }

  /** The renderings named by the code's own design: `X!` as `X`, `X` as `X?`, `[String]!` as `[String?]`. */
  lemma TypeNameExamples(options: Options)
    requires !options.passthroughCustomScalars
    ensures TypeNameFromGraphQLType(options, NonNull(Named(NamedType("Hero", ObjectKind))), None, None) == "Hero"
    ensures TypeNameFromGraphQLType(options, Named(NamedType("Hero", ObjectKind)), None, None) == "Hero?"
    ensures TypeNameFromGraphQLType(options, NonNull(List(Named(NamedType("String", ScalarKind)))), None, None) == "[String?]"
    ensures TypeNameFromGraphQLType(options, Named(NamedType("Float", ScalarKind)), None, None) == "Double?"
    ensures TypeNameFromGraphQLType(options, Named(NamedType("Date", ScalarKind)), None, None) == "String?"
  {
    var str := Named(NamedType("String", ScalarKind));
    assert TypeNameFromGraphQLType(options, str, None, None) == "String?";
    assert TypeNameFromGraphQLType(options, List(str), None, Some(false)) == "[" + "String?" + "]";
  }

  // ----- Field type enums -----

  /**
   * `fieldTypeEnum(type, structName)`: the `GraphQLOutputType` expression of a
   * field's type, or the error thrown for a type that cannot be a field's.
   */
  function FieldTypeEnum(options: Options, t: TypeRef, structName: string): (r: Result<string, string>)
    ensures r.Err? <==> GetNamedType(t).kind == InputObjectKind
    ensures r.Err? ==> r.error == "Unknown field type: " + GetNamedType(t).name
    ensures r.Ok? && !t.Named? ==> |r.value| > 0 && r.value[0] == '.' && r.value[|r.value| - 1] == ')'
  {
    match t
    case NonNull(inner) =>
      var e :- FieldTypeEnum(options, inner, structName);
      Ok(".nonNull(" + e + ")")
    case List(inner) =>
      var e :- FieldTypeEnum(options, inner, structName);
      Ok(".list(" + e + ")")
    case Named(n) => Leaf(options, n, structName)
  }

  /** The innermost case: scalars and enums as `.scalar`, composite types as `.object`, anything else an error. */
  function Leaf(options: Options, n: NamedType, structName: string): (r: Result<string, string>)
    ensures r.Err? <==> n.kind == InputObjectKind
  {
    if n.kind == ScalarKind then Ok(".scalar(" + TypeNameForScalarType(options, n) + ".self)")
    else if n.kind == EnumKind then Ok(".scalar(" + n.name + ".self)")
    else if IsCompositeType(n) then Ok(".object(" + structName + ".selections)")
    else Err("Unknown field type: " + n.name)
  }

  datatype Modifier = NonNullModifier | ListModifier

  /** The `NonNull` and `List` wrappers of a reference, outermost first. */
  function Modifiers(t: TypeRef): seq<Modifier> {
    match t
    case Named(_) => []
    case List(inner) => [ListModifier] + Modifiers(inner)
    case NonNull(inner) => [NonNullModifier] + Modifiers(inner)
  }

  /** One opening case per wrapper, in order. */
  function Opening(mods: seq<Modifier>): string {
    if mods == [] then ""
    else (if mods[0] == NonNullModifier then ".nonNull(" else ".list(") + Opening(mods[1..])
  }

  /** `k` closing parentheses. */
  function Closing(k: nat): string {
    if k == 0 then "" else Closing(k - 1) + ")"
  }

  lemma ClosingCommutes(k: nat)
    ensures Closing(k) + ")" == ")" + Closing(k)
  {
    if k > 0 {
      ClosingCommutes(k - 1);
      assert Closing(k) + ")" == (Closing(k - 1) + ")") + ")";
      assert ")" + Closing(k) == (")" + Closing(k - 1)) + ")";
    }
  }

  /**
   * A field type enum is one `.nonNull(` per `NonNull` wrapper and one `.list(`
   * per `List` wrapper in wrapping order, the innermost case, and the matching
   * closing parentheses; it fails exactly when the named type is an input
   * object.
   */
  lemma {:induction false} FieldTypeEnumShape(options: Options, t: TypeRef, structName: string)
    ensures FieldTypeEnum(options, t, structName).Err? <==> GetNamedType(t).kind == InputObjectKind
    ensures FieldTypeEnum(options, t, structName).Ok? ==>
      FieldTypeEnum(options, t, structName).value ==
        Opening(Modifiers(t)) + Leaf(options, GetNamedType(t), structName).value + Closing(|Modifiers(t)|)
  {
    match t
    case Named(n) =>
    case List(inner) =>
      FieldTypeEnumShape(options, inner, structName);
      WrapperStep(options, t, structName, ".list(");
    case NonNull(inner) =>
      FieldTypeEnumShape(options, inner, structName);
      WrapperStep(options, t, structName, ".nonNull(");
  }

  /** Wrapping an inner enum of the expected shape in one more case keeps the shape. */
  lemma WrapperStep(options: Options, t: TypeRef, structName: string, open: string)
    requires !t.Named?
    requires open == if t.NonNull? then ".nonNull(" else ".list("
    requires FieldTypeEnum(options, t.ofType, structName).Ok? ==>
      && Leaf(options, GetNamedType(t), structName).Ok?
      && FieldTypeEnum(options, t.ofType, structName).value ==
        Opening(Modifiers(t.ofType)) + Leaf(options, GetNamedType(t), structName).value + Closing(|Modifiers(t.ofType)|)
    ensures FieldTypeEnum(options, t, structName).Ok? ==>
      && Leaf(options, GetNamedType(t), structName).Ok?
      && FieldTypeEnum(options, t, structName).value ==
        Opening(Modifiers(t)) + Leaf(options, GetNamedType(t), structName).value + Closing(|Modifiers(t)|)
  {
    var inner := FieldTypeEnum(options, t.ofType, structName);
    if inner.Ok? {
      var mods := Modifiers(t.ofType);
      var leaf := Leaf(options, GetNamedType(t), structName).value;
      OpeningStep(t);
      ClosingCommutes(|mods|);
      Regroup("", open, Opening(mods), leaf, Closing(|mods|), ")");
      assert "" + open == open && "" + open + Opening(mods) == open + Opening(mods);
    }
  }

  lemma OpeningStep(t: TypeRef)
    requires !t.Named?
    ensures Opening(Modifiers(t)) == (if t.NonNull? then ".nonNull(" else ".list(") + Opening(Modifiers(t.ofType))
    ensures |Modifiers(t)| == |Modifiers(t.ofType)| + 1
  {
    assert Modifiers(t)[1..] == Modifiers(t.ofType);
  }

  // ----- Map expressions -----

  /**
   * `mapExpressionForType(type, expression, prefix)`: the Swift expression that
   * applies `expression` inside every optional and list level of the type, with
   * `$0` standing for the value at the inner levels.
   */
  function MapExpressionForType(t: TypeRef, expression: string, prefix: string): (r: string)
    ensures t.NonNull? && !t.ofType.List? ==> r == expression
    ensures !(t.NonNull? && !t.ofType.List?) ==> |r| > |prefix| && r[..|prefix|] == prefix && r[|r| - 1] == '}'
  {
    var isOptional := !t.NonNull?;
    var inner := if t.NonNull? then t.ofType else t;
    if inner.List? then
      if isOptional then prefix + ".flatMap { $0.map { " + MapExpressionForType(inner.ofType, expression, "$0") + " } }"
      else prefix + ".map { " + MapExpressionForType(inner.ofType, expression, "$0") + " }"
    else if isOptional then prefix + ".flatMap { " + expression + " }"
    else expression
  }

  /** The number of closures a map expression opens: two for a nullable list, one for a list or a nullable value. */
  function Closures(t: TypeRef): nat {
    var isOptional := !t.NonNull?;
    var inner := if t.NonNull? then t.ofType else t;
    if inner.List? then (if isOptional then 2 else 1) + Closures(inner.ofType)
    else if isOptional then 1
    else 0
  }

  /** `k` closing braces, each after a space. */
  function Braces(k: nat): string {
    if k == 0 then "" else Braces(k - 1) + " }"
  }

  /** What a map expression writes before the expression: the prefix and the opening of each closure. */
  function MapHead(t: TypeRef, prefix: string): string {
    var isOptional := !t.NonNull?;
    var inner := if t.NonNull? then t.ofType else t;
    if inner.List? then
      (if isOptional then prefix + ".flatMap { " + "$0" + ".map { " else prefix + ".map { ") + MapHead(inner.ofType, "$0")
    else if isOptional then prefix + ".flatMap { "
    else ""
  }

  /**
   * The expression sits innermost: a map expression is the opening of its
   * closures, the expression, and one closing brace per closure; a non-null,
   * non-list type applies the expression unchanged.
   */
  lemma {:induction false} MapExpressionNestsExpression(t: TypeRef, expression: string, prefix: string)
    ensures MapExpressionForType(t, expression, prefix) == MapHead(t, prefix) + expression + Braces(Closures(t))
    ensures Closures(t) == 0 <==> t.NonNull? && !t.ofType.List?
    ensures Closures(t) == 0 ==> MapExpressionForType(t, expression, prefix) == expression
  {
    var inner := if t.NonNull? then t.ofType else t;
    if inner.List? {
      MapExpressionNestsExpression(inner.ofType, expression, "$0");
      if t.NonNull? {
        ListLevel(t, expression, prefix);
      } else {
        NullableListLevel(t, expression, prefix);
      }
    } else {
      assert Braces(Closures(t)) == if t.NonNull? then "" else " }";
    }
  }

  /** Moving the parts of a closure around the text it encloses. */
  lemma Regroup(p: string, l: string, h: string, e: string, b: string, c: string)
    ensures (p + l) + ((h + e) + b) + c == (p + l + h) + e + (b + c)
  {
  }

  lemma ListLevel(t: TypeRef, expression: string, prefix: string)
    requires t.NonNull? && t.ofType.List?
    requires MapExpressionForType(t.ofType.ofType, expression, "$0") ==
      MapHead(t.ofType.ofType, "$0") + expression + Braces(Closures(t.ofType.ofType))
    ensures MapExpressionForType(t, expression, prefix) == MapHead(t, prefix) + expression + Braces(Closures(t))
  {
    var u := t.ofType.ofType;
    Regroup(prefix, ".map { ", MapHead(u, "$0"), expression, Braces(Closures(u)), " }");
  }

  lemma NullableListLevel(t: TypeRef, expression: string, prefix: string)
    requires t.List?
    requires MapExpressionForType(t.ofType, expression, "$0") ==
      MapHead(t.ofType, "$0") + expression + Braces(Closures(t.ofType))
    ensures MapExpressionForType(t, expression, prefix) == MapHead(t, prefix) + expression + Braces(Closures(t))
  {
    var u := t.ofType;
    NullableListHead(t, prefix);
    NullableListBraces(t);
    Regroup(prefix, ".flatMap { $0.map { ", MapHead(u, "$0"), expression, Braces(Closures(u)), " } }");
  }

  lemma NullableListHead(t: TypeRef, prefix: string)
    requires t.List?
    ensures MapHead(t, prefix) == prefix + ".flatMap { $0.map { " + MapHead(t.ofType, "$0")
  {
    FlatMapMapText();
  }

  lemma NullableListBraces(t: TypeRef)
    requires t.List?
    ensures Braces(Closures(t)) == Braces(Closures(t.ofType)) + " } }"
  {
    var k := Closures(t.ofType);
    assert Closures(t) == k + 2;
    BracesTwoMore(k);
    ClosingPair();
  }

  lemma BracesTwoMore(k: nat)
    ensures Braces(k + 2) == Braces(k) + (" }" + " }")
  {
    assert Braces(k + 2) == Braces(k + 1) + " }";
    assert Braces(k + 1) == Braces(k) + " }";
  }

  lemma ClosingPair()
    ensures " }" + " }" == " } }"
  {
  }

  lemma FlatMapMapText()
    ensures ".flatMap { $0.map { " == ".flatMap { " + "$0" + ".map { "
  {
  }

  /** Counting one character over four concatenated pieces. */
  lemma CountPieces(c: char, a: string, b: string, d: string, e: string)
    ensures Count(c, a + b + d + e) == Count(c, a) + Count(c, b) + Count(c, d) + Count(c, e)
  {
    CountConcat(c, a + b + d, e);
    CountConcat(c, a + b, d);
    CountConcat(c, a, b);
  }

  lemma CountOne(c: char, d: char)
    ensures Count(c, [d]) == if c == d then 1 else 0
  {
    assert [d][1..] == [];
  }

  /** Text around a single opening brace. */
  lemma OneOpeningBrace(a: string, b: string)
    requires '{' !in a && '}' !in a && '{' !in b && '}' !in b
    ensures Count('{', a + "{" + b) == 1 && Count('}', a + "{" + b) == 0
  {
    CountAbsent('{', a);
    CountAbsent('}', a);
    CountAbsent('{', b);
    CountAbsent('}', b);
    CountOne('{', '{');
    CountOne('}', '{');
    CountConcat('{', a + "{", b);
    CountConcat('{', a, "{");
    CountConcat('}', a + "{", b);
    CountConcat('}', a, "{");
  }

  lemma FlatMapTextCounts()
    ensures Count('{', ".flatMap { ") == 1 && Count('}', ".flatMap { ") == 0
  {
    assert ".flatMap { " == ".flatMap " + "{" + " ";
    OneOpeningBrace(".flatMap ", " ");
  }

  lemma MapTextCounts()
    ensures Count('{', ".map { ") == 1 && Count('}', ".map { ") == 0
  {
    assert ".map { " == ".map " + "{" + " ";
    OneOpeningBrace(".map ", " ");
  }

  /** The opening of a map expression opens one brace per closure and closes none. */
  lemma {:induction false} MapHeadOpens(t: TypeRef, prefix: string)
    requires '{' !in prefix && '}' !in prefix
    ensures Count('{', MapHead(t, prefix)) == Closures(t) && Count('}', MapHead(t, prefix)) == 0
  {
    var inner := if t.NonNull? then t.ofType else t;
    if inner.List? {
      MapHeadOpens(inner.ofType, "$0");
      if t.NonNull? {
        ListHeadOpens(t, prefix);
      } else {
        NullableListHeadOpens(t, prefix);
      }
    } else if !t.NonNull? {
      NullableHeadOpens(t, prefix);
    }
  }

  lemma NullableHeadOpens(t: TypeRef, prefix: string)
    requires '{' !in prefix && '}' !in prefix
    requires !t.NonNull? && !t.List?
    ensures Count('{', MapHead(t, prefix)) == Closures(t) && Count('}', MapHead(t, prefix)) == 0
  {
    assert MapHead(t, prefix) == prefix + ".flatMap { " && Closures(t) == 1;
    CountAbsent('{', prefix);
    CountAbsent('}', prefix);
    FlatMapTextCounts();
    CountConcat('{', prefix, ".flatMap { ");
    CountConcat('}', prefix, ".flatMap { ");
  }

  lemma ListHeadOpens(t: TypeRef, prefix: string)
    requires '{' !in prefix && '}' !in prefix
    requires t.NonNull? && t.ofType.List?
    requires Count('{', MapHead(t.ofType.ofType, "$0")) == Closures(t.ofType.ofType)
    requires Count('}', MapHead(t.ofType.ofType, "$0")) == 0
    ensures Count('{', MapHead(t, prefix)) == Closures(t) && Count('}', MapHead(t, prefix)) == 0
  {
    CountAbsent('{', prefix);
    CountAbsent('}', prefix);
    MapTextCounts();
    HeadCounts(prefix, ".map { ", MapHead(t.ofType.ofType, "$0"));
  }

  lemma NullableListHeadOpens(t: TypeRef, prefix: string)
    requires '{' !in prefix && '}' !in prefix
    requires t.List?
    requires Count('{', MapHead(t.ofType, "$0")) == Closures(t.ofType)
    requires Count('}', MapHead(t.ofType, "$0")) == 0
    ensures Count('{', MapHead(t, prefix)) == Closures(t) && Count('}', MapHead(t, prefix)) == 0
  {
    var rest := MapHead(t.ofType, "$0");
    NullableListHeadPieces(t, prefix);
    NullableListOpeningCounts(prefix, rest);
  }

  lemma NullableListHeadPieces(t: TypeRef, prefix: string)
    requires t.List?
    ensures MapHead(t, prefix) == prefix + ".flatMap { " + "$0" + ".map { " + MapHead(t.ofType, "$0")
    ensures Closures(t) == 2 + Closures(t.ofType)
  {
  }

  lemma NullableListOpeningCounts(prefix: string, rest: string)
    requires '{' !in prefix && '}' !in prefix
    ensures Count('{', prefix + ".flatMap { " + "$0" + ".map { " + rest) == 2 + Count('{', rest)
    ensures Count('}', prefix + ".flatMap { " + "$0" + ".map { " + rest) == Count('}', rest)
  {
    FlatMapTextCounts();
    MapTextCounts();
    CountAbsent('{', "$0");
    CountAbsent('}', "$0");
    TwoOpenings(prefix, ".flatMap { ", "$0", ".map { ", rest);
  }

  /** A prefix without braces, two pieces that open one brace each and a piece without braces, before the rest. */
  lemma TwoOpenings(p: string, a: string, b: string, c: string, rest: string)
    requires '{' !in p && '}' !in p
    requires Count('{', a) == 1 && Count('}', a) == 0
    requires Count('{', b) == 0 && Count('}', b) == 0
    requires Count('{', c) == 1 && Count('}', c) == 0
    ensures Count('{', p + a + b + c + rest) == 2 + Count('{', rest)
    ensures Count('}', p + a + b + c + rest) == Count('}', rest)
  {
    CountAbsent('{', p);
    CountAbsent('}', p);
    NullableListHeadCounts(p, a, b, c, rest);
  }

  /** Braces counted over the prefix, the opening text of one level and the rest. */
  lemma HeadCounts(p: string, open: string, rest: string)
    ensures Count('{', p + open + rest) == Count('{', p) + Count('{', open) + Count('{', rest)
    ensures Count('}', p + open + rest) == Count('}', p) + Count('}', open) + Count('}', rest)
  {
    CountConcat('{', p + open, rest);
    CountConcat('{', p, open);
    CountConcat('}', p + open, rest);
    CountConcat('}', p, open);
  }

  lemma NullableListHeadCounts(p: string, a: string, b: string, c: string, rest: string)
    ensures Count('{', p + a + b + c + rest) == Count('{', p) + Count('{', a) + Count('{', b) + Count('{', c) + Count('{', rest)
    ensures Count('}', p + a + b + c + rest) == Count('}', p) + Count('}', a) + Count('}', b) + Count('}', c) + Count('}', rest)
  {
    CountConcat('{', p + a + b + c, rest);
    CountPieces('{', p, a, b, c);
    CountConcat('}', p + a + b + c, rest);
    CountPieces('}', p, a, b, c);
  }

  /** `k` closing braces hold no opening brace. */
  lemma {:induction false} BracesClose(k: nat)
    ensures Count('{', Braces(k)) == 0 && Count('}', Braces(k)) == k
  {
    if k > 0 {
      BracesClose(k - 1);
      CountAbsent('{', " }");
      assert " }" == " " + "}";
      CountAbsent('}', " ");
      CountOne('}', '}');
      CountConcat('}', " ", "}");
      CountConcat('{', Braces(k - 1), " }");
      CountConcat('}', Braces(k - 1), " }");
    }
  }

  /**
   * Every closure a map expression opens is closed: with no braces in the
   * expression and the prefix, it holds as many `{` as `}`, one of each per
   * closure.
   */
  lemma MapExpressionBalanced(t: TypeRef, expression: string, prefix: string)
    requires '{' !in expression && '}' !in expression && '{' !in prefix && '}' !in prefix
    ensures Count('{', MapExpressionForType(t, expression, prefix)) == Closures(t)
    ensures Count('}', MapExpressionForType(t, expression, prefix)) == Closures(t)
  {
    MapExpressionNestsExpression(t, expression, prefix);
    MapHeadOpens(t, prefix);
    BracesClose(Closures(t));
    CountAbsent('{', expression);
    CountAbsent('}', expression);
    var h := MapHead(t, prefix);
    CountConcat('{', h + expression, Braces(Closures(t)));
    CountConcat('{', h, expression);
    CountConcat('}', h + expression, Braces(Closures(t)));
    CountConcat('}', h, expression);
  }

  // ----- Printing -----

  /** The non-empty strings of `xs`, in order (JavaScript's `filter(x => x)` on strings). */
  function NonEmpty(xs: seq<string>): (r: seq<string>)
    ensures forall x :: x in r <==> x in xs && x != ""
    ensures forall i | 0 <= i < |r| :: r[i] != ""
    ensures r == [] <==> forall i | 0 <= i < |xs| :: xs[i] == ""
  {
    if xs == [] then []
    else if xs[0] != "" then [xs[0]] + NonEmpty(xs[1..])
    else NonEmpty(xs[1..])
  }

  /**
   * `join(parts, separator)` of the printing utilities: empty parts are
   * dropped before joining, so the result is empty exactly when every part is.
   */
  function PrintingJoin(parts: seq<string>, sep: string): (r: string)
    ensures r == "" <==> forall i | 0 <= i < |parts| :: parts[i] == ""
    ensures (forall i | 0 <= i < |parts| :: parts[i] != "") ==> r == Join(parts, sep)
  {
    JoinNonEmpty(NonEmpty(parts), sep);
    NonEmptyKeepsAllWhenNoneEmpty(parts);
    Join(NonEmpty(parts), sep)
  }

  /** `wrap(start, s, end)` of the printing utilities: nothing at all when `s` is empty. */
  function PrintingWrap(start: string, s: string, end: string): (r: string)
    ensures r == "" <==> s == ""
    ensures s != "" ==>
      && |r| == |start| + |s| + |end|
      && r[..|start|] == start
      && r[|start|..|start| + |s|] == s
      && r[|start| + |s|..] == end
  {
    if s == "" then "" else start + s + end
  }

  /** JavaScript's `s || ':'`. */
  function OrColon(s: string): string {
    if s == "" then ":" else s
  }

  /** Dropping empty parts changes nothing when there are none. */
  lemma {:induction false} NonEmptyKeepsAll(xs: seq<string>)
    requires forall i | 0 <= i < |xs| :: xs[i] != ""
    ensures NonEmpty(xs) == xs
  {
    if xs != [] {
      NonEmptyKeepsAll(xs[1..]);
    }
  }

  lemma NonEmptyKeepsAllWhenNoneEmpty(xs: seq<string>)
    ensures (forall i | 0 <= i < |xs| :: xs[i] != "") ==> NonEmpty(xs) == xs
  {
    if forall i | 0 <= i < |xs| :: xs[i] != "" {
      NonEmptyKeepsAll(xs);
    }
  }

  /** Joining non-empty strings gives a non-empty string exactly when there is one. */
  lemma {:induction false} JoinNonEmpty(xs: seq<string>, sep: string)
    requires forall i | 0 <= i < |xs| :: xs[i] != ""
    ensures Join(xs, sep) == "" <==> xs == []
  {
    if |xs| > 1 {
      assert Join(xs, sep) == xs[0] + sep + Join(xs[1..], sep);
      assert |Join(xs, sep)| >= |xs[0]|;
    }
  }

  // ----- Properties -----

  /** The response field a property is made for; the rest of its attributes are carried along unread. */
  datatype SwiftField = SwiftField(responseKey: string, fieldType: TypeRef, isConditional: bool)

  datatype FieldProperty = FieldProperty(
    field: SwiftField,
    responseKey: string,
    propertyName: string,
    typeName: string,
    structName: string,
    isOptional: bool)

  /** `structNameForPropertyName`: the singular of the property name, in Pascal case. */
  function StructNameForPropertyName(strings: StringLibrary, propertyName: string): string {
    strings.pascalCase(strings.singularize(propertyName))
  }

  /** The type under a field's property: a conditional field loses its outer `NonNull`. */
  function PropertyType(field: SwiftField): (t: TypeRef)
    ensures GetNamedType(t) == GetNamedType(field.fieldType)
    ensures ListDepth(t) == ListDepth(field.fieldType)
  {
    if field.isConditional && field.fieldType.NonNull? then field.fieldType.ofType else field.fieldType
  }

  /** A `NonNull` directly inside a `NonNull`, which GraphQL does not allow (section 3.12 of the GraphQL specification). */
  predicate DoublyNonNull(t: TypeRef) {
    t.NonNull? && t.ofType.NonNull?
  }

  /**
   * `propertyFromField(field, namespace)`: the property is named by the
   * response key (in camel case unless it is a meta field), its struct is the
   * singular of that key under the namespace, and it is optional exactly when
   * the field's type is nullable or the field is conditional.
   */
  function PropertyFromField(options: Options, strings: StringLibrary, field: SwiftField, namespace: Option<string>): (r: FieldProperty)
    ensures r.field == field && r.responseKey == field.responseKey
    ensures r.propertyName == if IsMetaFieldName(field.responseKey) then field.responseKey else strings.camelCase(field.responseKey)
    ensures !field.isConditional ==> (r.isOptional <==> !field.fieldType.NonNull?)
    ensures field.isConditional && !DoublyNonNull(field.fieldType) ==> r.isOptional
    ensures namespace.None? ==> r.structName == StructNameForPropertyName(strings, field.responseKey)
    ensures namespace.Some? && namespace.value != "" && StructNameForPropertyName(strings, field.responseKey) != "" ==>
      r.structName == namespace.value + "." + StructNameForPropertyName(strings, field.responseKey)
    ensures r.typeName == Render(SwiftTypeOf(options, PropertyType(field),
      Some(if IsCompositeType(GetNamedType(field.fieldType)) then r.structName else GetNamedType(field.fieldType).name)))
  {
    var responseKey := field.responseKey;
    var propertyName := if IsMetaFieldName(responseKey) then responseKey else strings.camelCase(responseKey);
    var ns := if namespace.Some? then namespace.value else "";
    var structName := PrintingJoin([ns, StructNameForPropertyName(strings, responseKey)], ".");
    JoinUnderEmptyNamespace(StructNameForPropertyName(strings, responseKey));
    var t := PropertyType(field);
    var unmodifiedType := GetNamedType(field.fieldType);
    var unmodifiedTypeName := if IsCompositeType(unmodifiedType) then structName else unmodifiedType.name;
    TypeNameIsSwiftTypeOf(options, t, Some(unmodifiedTypeName));
    JoinPair(ns, StructNameForPropertyName(strings, responseKey), ".");
    FieldProperty(field, responseKey, propertyName, TypeNameFromGraphQLType(options, t, Some(unmodifiedTypeName), None),
                  structName, !t.NonNull?)
  }

  /** Two non-empty parts are joined with one separator between them. */
  lemma JoinPair(a: string, b: string, sep: string)
    ensures a != "" && b != "" ==> PrintingJoin([a, b], sep) == a + sep + b
  {
    if a != "" && b != "" {
      var parts := [a, b];
      assert forall i | 0 <= i < |parts| :: parts[i] != "";
      assert PrintingJoin(parts, sep) == Join(parts, sep);
      assert parts[1..] == [b];
    }
  }

  /** Without a namespace, `join([namespace, name], '.')` is the name. */
  lemma JoinUnderEmptyNamespace(name: string)
    ensures PrintingJoin(["", name], ".") == name
  {
    assert ["", name][1..] == [name];
    assert NonEmpty(["", name]) == NonEmpty([name]);
    if name != "" {
      assert [name][1..] == [];
      assert NonEmpty([name]) == [name] + NonEmpty([]);
    }
  }

  lemma GraphQLNameUnmarked(s: string)
    requires IsGraphQLName(s)
    ensures !EndsWithMark(s)
  {
    assert s[|s| - 1] != '?';
  }

  /**
   * A field property's Swift type is optional exactly when the property is,
   * provided the struct name it may use is not itself marked.
   */
  lemma FieldPropertyTypeMarksOptional(options: Options, strings: StringLibrary, field: SwiftField, namespace: Option<string>)
    requires IsGraphQLName(GetNamedType(field.fieldType).name)
    requires !EndsWithMark(PropertyFromField(options, strings, field, namespace).structName)
    ensures var r := PropertyFromField(options, strings, field, namespace);
      EndsWithMark(r.typeName) <==> r.isOptional
  {
    var r := PropertyFromField(options, strings, field, namespace);
    var n := GetNamedType(field.fieldType);
    GraphQLNameUnmarked(n.name);
    var u := if IsCompositeType(n) then r.structName else n.name;
    TypeNameMarksNullable(options, PropertyType(field), Some(u));
  }

  datatype VariantProperty = VariantProperty(propertyName: string, typeName: string, structName: string, selectionSet: SelectionSet)

  /**
   * `structNameForVariant`: `As` followed by the variant's possible types in
   * Pascal case, joined by `Or`.
   */
  function StructNameForVariant(strings: StringLibrary, possibleTypes: seq<NamedType>): (r: string)
    ensures |r| >= 2 && r[..2] == "As"
  {
    "As" + Join(PascalNames(strings, possibleTypes), "Or")
  }

  function PascalNames(strings: StringLibrary, possibleTypes: seq<NamedType>): (r: seq<string>)
    ensures |r| == |possibleTypes|
    ensures forall i | 0 <= i < |r| :: r[i] == strings.pascalCase(possibleTypes[i].name)
  {
    seq(|possibleTypes|, i requires 0 <= i < |possibleTypes| => strings.pascalCase(possibleTypes[i].name))
  }

  /** A variant of one type is named after it. */
  lemma StructNameForSingleType(strings: StringLibrary, t: NamedType)
    ensures StructNameForVariant(strings, [t]) == "As" + strings.pascalCase(t.name)
  {
    assert PascalNames(strings, [t]) == [strings.pascalCase(t.name)];
  }

  /** One more possible type adds `Or` and its name at the end. */
  lemma StructNameForVariantAppend(strings: StringLibrary, possibleTypes: seq<NamedType>, t: NamedType)
    requires possibleTypes != []
    ensures StructNameForVariant(strings, possibleTypes + [t]) ==
      StructNameForVariant(strings, possibleTypes) + "Or" + strings.pascalCase(t.name)
  {
    var names := PascalNames(strings, possibleTypes);
    assert PascalNames(strings, possibleTypes + [t]) == names + [strings.pascalCase(t.name)];
    JoinSnoc(names, strings.pascalCase(t.name), "Or");
  }

  /** `propertyFromVariant`: a property for a type-case variant is always optional. */
  function PropertyFromVariant(strings: StringLibrary, variant: SelectionSet): (r: VariantProperty)
    ensures r.structName == StructNameForVariant(strings, variant.possibleTypes)
    ensures EndsWithMark(r.typeName) && r.typeName[..|r.typeName| - 1] == r.structName
    ensures r.propertyName == strings.camelCase(r.structName) && r.selectionSet == variant
  {
    var structName := StructNameForVariant(strings, variant.possibleTypes);
    VariantProperty(strings.camelCase(structName), structName + "?", structName, variant)
  }

  datatype FragmentSpreadProperty = FragmentSpreadProperty(
    fragmentName: string,
    propertyName: string,
    typeName: string,
    structName: string,
    isConditional: bool)

  /**
   * `propertyFromFragmentSpread(fragmentSpread, isConditional)`: the struct is
   * the fragment's name in Pascal case, and the property's type is that struct,
   * made optional when the spread is conditional.
   */
  function PropertyFromFragmentSpread(strings: StringLibrary, fragmentName: string, isConditional: bool): (r: FragmentSpreadProperty)
    ensures r.fragmentName == fragmentName && r.isConditional == isConditional
    ensures r.structName == strings.pascalCase(fragmentName)
    ensures r.propertyName == strings.camelCase(fragmentName)
    ensures |r.typeName| >= |r.structName| && r.typeName[..|r.structName|] == r.structName
  {
    var structName := strings.pascalCase(fragmentName);
    FragmentSpreadProperty(fragmentName, strings.camelCase(fragmentName),
                           if isConditional then structName + "?" else structName, structName, isConditional)
  }

  /** A fragment-spread property's type is optional exactly when the spread is conditional. */
  lemma FragmentSpreadOptionalIffConditional(strings: StringLibrary, fragmentName: string, isConditional: bool)
    requires !EndsWithMark(strings.pascalCase(fragmentName))
    ensures EndsWithMark(PropertyFromFragmentSpread(strings, fragmentName, isConditional).typeName) <==> isConditional
  {
  }

  datatype InputField = InputField(name: string, fieldType: TypeRef)

  datatype InputFieldProperty = InputFieldProperty(field: InputField, propertyName: string, typeName: string, isOptional: bool)

  /**
   * `propertyFromInputField(field)`: a property named after the field, of the
   * field's Swift type, optional exactly when the field's type is nullable.
   */
  function PropertyFromInputField(options: Options, strings: StringLibrary, field: InputField): (r: InputFieldProperty)
    ensures r.field == field && r.propertyName == strings.camelCase(field.name)
    ensures r.isOptional <==> !field.fieldType.NonNull?
    ensures r.typeName == Render(SwiftTypeOf(options, field.fieldType, None))
  {
    TypeNameIsSwiftTypeOf(options, field.fieldType, None);
    InputFieldProperty(field, strings.camelCase(field.name), TypeNameFromGraphQLType(options, field.fieldType, None, None),
                       !field.fieldType.NonNull?)
  }

  /** An input-field property's Swift type is optional exactly when the property is. */
  lemma InputFieldTypeMarksOptional(options: Options, strings: StringLibrary, field: InputField)
    requires IsGraphQLName(GetNamedType(field.fieldType).name)
    ensures var r := PropertyFromInputField(options, strings, field);
      EndsWithMark(r.typeName) <==> r.isOptional
  {
    TypeNameMarksNullable(options, field.fieldType, None);
  }

  // ----- Argument dictionaries -----

  /** `GraphQLVariable("name")`: a reference to an operation variable. */
  function VariableExpression(name: string): string {
    "GraphQLVariable(\"" + name + "\")"
  }

  /** The first value of an object value under `key`, as property access reads it. */
  function FieldNamed(entries: seq<ObjectEntry>, key: string): (r: Option<Value>)
    ensures r.Some? ==> ObjectEntry(key, r.value) in entries
    ensures r.None? ==> forall e | e in entries :: e.key != key
  {
    if entries == [] then None
    else if entries[0].key == key then Some(entries[0].value)
    else FieldNamed(entries[1..], key)
  }

  /** An object value that reads as a variable reference: its `kind` is the string `Variable`. */
  predicate LooksLikeVariable(entries: seq<ObjectEntry>) {
    FieldNamed(entries, "kind") == Some(ScalarValue(JsonString("Variable")))
  }

  /**
   * The values on which the source's `expressionFromValue` reaches a `null`:
   * reading `kind` of `null` throws a `TypeError`. The recursion goes into
   * every list item and into every entry of an object not read as a variable.
   */
  predicate ReachesNull(v: Value)
    decreases v
  {
    match v
    case VariableValue(_) => false
    case ListValue(items) => exists i | 0 <= i < |items| :: ReachesNull(items[i])
    case ObjectValue(entries) => !LooksLikeVariable(entries) && exists i | 0 <= i < |entries| :: ReachesNull(entries[i].value)
    case ScalarValue(scalar) => scalar.JsonNull?
  }

  /**
   * `expressionFromValue` as the source writes it, `None` where it throws. An
   * object value whose `kind` is `"Variable"` is taken for a variable
   * reference, its `variableName` turned to text by `toText` (`undefined` when
   * absent); lists and objects go through the printing utilities' `join`,
   * which drops empty parts, and `wrap`, which yields nothing around an empty
   * middle.
   */
  function ExpressionFromValueAsWritten(stringify: JsonScalar -> string, toText: Value -> string, v: Value): (r: Option<string>)
    ensures r.None? <==> ReachesNull(v)
    ensures r.Some? && (v.ListValue? || (v.ObjectValue? && !LooksLikeVariable(v.entries))) && r.value != "" ==>
      r.value[0] == '[' && r.value[|r.value| - 1] == ']'
    decreases v
  {
    match v
    case VariableValue(name) => Some(VariableExpression(name))
    case ObjectValue(entries) =>
      if LooksLikeVariable(entries) then
        Some(VariableExpression(match FieldNamed(entries, "variableName") case None => "undefined" case Some(x) => toText(x)))
      else
        var parts := seq(|entries|, i requires 0 <= i < |entries| => ExpressionFromValueAsWritten(stringify, toText, entries[i].value));
        assert forall i | 0 <= i < |parts| :: parts[i].None? <==> ReachesNull(entries[i].value);
        if exists i | 0 <= i < |parts| :: parts[i].None? then None
        else Some(PrintingWrap("[", OrColon(PrintingJoin(seq(|entries|, i requires 0 <= i < |entries| =>
          "\"" + entries[i].key + "\": " + parts[i].value), ", ")), "]"))
    case ListValue(items) =>
      var parts := seq(|items|, i requires 0 <= i < |items| => ExpressionFromValueAsWritten(stringify, toText, items[i]));
      assert forall i | 0 <= i < |parts| :: parts[i].None? <==> ReachesNull(items[i]);
      if exists i | 0 <= i < |parts| :: parts[i].None? then None
      else Some(PrintingWrap("[", PrintingJoin(seq(|items|, i requires 0 <= i < |items| => parts[i].value), ", "), "]"))
    case ScalarValue(scalar) => if scalar.JsonNull? then None else Some(stringify(scalar))
  }

  /**
   * `dictionaryLiteralForFieldArguments` as the source writes it, `None` where
   * it throws: on a `null` reached in any argument value. Otherwise the
   * literal is bracketed, `[:]` when the pairs come to nothing.
   */
  function DictionaryLiteralAsWritten(stringify: JsonScalar -> string, toText: Value -> string, args: seq<Argument>): (r: Option<string>)
    ensures r.None? <==> exists i | 0 <= i < |args| :: ReachesNull(args[i].value)
    ensures r.Some? ==> |r.value| >= 2 && r.value[0] == '[' && r.value[|r.value| - 1] == ']'
  {
    var parts := seq(|args|, i requires 0 <= i < |args| => ExpressionFromValueAsWritten(stringify, toText, args[i].value));
    assert forall i | 0 <= i < |parts| :: parts[i].None? <==> ReachesNull(args[i].value);
    if exists i | 0 <= i < |parts| :: parts[i].None? then None
    else Some(PrintingWrap("[", OrColon(PrintingJoin(seq(|args|, i requires 0 <= i < |args| =>
      "\"" + args[i].name + "\": " + parts[i].value), ", ")), "]"))
  }

  /** The Swift text of one argument value, with lists always bracketed and objects never read as variables. */
  function ExpressionFromValue(stringify: JsonScalar -> string, v: Value): (r: string)
    ensures v.VariableValue? ==> r == VariableExpression(v.variableName)
    ensures v.ListValue? || v.ObjectValue? ==> |r| >= 2 && r[0] == '[' && r[|r| - 1] == ']'
    ensures v == ObjectValue([]) ==> r == "[:]"
    ensures v == ListValue([]) ==> r == "[]"
    decreases v
  {
    match v
    case VariableValue(name) => VariableExpression(name)
    case ObjectValue(entries) => DictionaryText(EntryTexts(stringify, entries))
    case ListValue(items) => "[" + Join(ItemTexts(stringify, items), ", ") + "]"
    case ScalarValue(scalar) => stringify(scalar)
  }

  /** The text of each list item, in order. */
  function ItemTexts(stringify: JsonScalar -> string, items: seq<Value>): (r: seq<string>)
    ensures |r| == |items|
    decreases items, 0
  {
    seq(|items|, i requires 0 <= i < |items| => ExpressionFromValue(stringify, items[i]))
  }

  /** `"key": value` for each entry of an object value, in entry order. */
  function EntryTexts(stringify: JsonScalar -> string, entries: seq<ObjectEntry>): (r: seq<string>)
    ensures |r| == |entries|
    ensures forall i | 0 <= i < |r| :: r[i] != ""
    decreases entries, 0
  {
    seq(|entries|, i requires 0 <= i < |entries| => "\"" + entries[i].key + "\": " + ExpressionFromValue(stringify, entries[i].value))
  }

  /** `wrap('[', join(pairs, ', ') || ':', ']')` for non-empty pairs. */
  function DictionaryText(pairs: seq<string>): (r: string)
    requires forall i | 0 <= i < |pairs| :: pairs[i] != ""
    ensures pairs == [] ==> r == "[:]"
    ensures pairs != [] ==> r == "[" + Join(pairs, ", ") + "]"
  {
    NonEmptyKeepsAll(pairs);
    JoinNonEmpty(pairs, ", ");
    PrintingWrap("[", OrColon(PrintingJoin(pairs, ", ")), "]")
  }

  /**
   * `dictionaryLiteralForFieldArguments(args)`: `"name": value` for each
   * argument in order, in brackets, and `[:]` when there are none.
   */
  function DictionaryLiteralForFieldArguments(stringify: JsonScalar -> string, args: seq<Argument>): (r: string)
    ensures args == [] ==> r == "[:]"
    ensures args != [] ==> r == "[" + Join(ArgumentTexts(stringify, args), ", ") + "]"
  {
    DictionaryText(ArgumentTexts(stringify, args))
  }

  /** `"name": value` for each argument, in order. */
  function ArgumentTexts(stringify: JsonScalar -> string, args: seq<Argument>): (r: seq<string>)
    ensures |r| == |args|
    ensures forall i | 0 <= i < |r| :: r[i] != "" && r[i][0] == '"'
  {
    seq(|args|, i requires 0 <= i < |args| => "\"" + args[i].name + "\": " + ExpressionFromValue(stringify, args[i].value))
  }

  /** Every value renders as some text, given that `JSON.stringify` of a scalar is never empty. */
  lemma ExpressionNonEmpty(stringify: JsonScalar -> string, v: Value)
    requires forall x :: stringify(x) != ""
    ensures ExpressionFromValue(stringify, v) != ""
  {
  }

  /**
   * Values the source renders as intended: no empty list anywhere, no object
   * whose `kind` is `"Variable"`, and no `null`.
   */
  predicate Unambiguous(v: Value)
    decreases v
  {
    match v
    case ListValue(items) => items != [] && forall i | 0 <= i < |items| :: Unambiguous(items[i])
    case ObjectValue(entries) => !LooksLikeVariable(entries) && forall i | 0 <= i < |entries| :: Unambiguous(entries[i].value)
    case ScalarValue(scalar) => !scalar.JsonNull?
    case VariableValue(_) => true
  }

  /** On values without the two defects, the source's rendering is the intended one. */
  lemma {:induction false} AsWrittenAgrees(stringify: JsonScalar -> string, toText: Value -> string, v: Value)
    requires forall x :: stringify(x) != ""
    requires Unambiguous(v)
    ensures ExpressionFromValueAsWritten(stringify, toText, v) == Some(ExpressionFromValue(stringify, v))
    decreases v
  {
    match v
    case VariableValue(_) =>
    case ScalarValue(_) =>
    case ListValue(items) =>
      var parts := seq(|items|, i requires 0 <= i < |items| => ExpressionFromValueAsWritten(stringify, toText, items[i]));
      forall i | 0 <= i < |items| ensures parts[i] == Some(ItemTexts(stringify, items)[i]) && parts[i].value != "" {
        AsWrittenAgrees(stringify, toText, items[i]);
        ExpressionNonEmpty(stringify, items[i]);
      }
      var xs := seq(|items|, i requires 0 <= i < |items| => parts[i].value);
      assert xs == ItemTexts(stringify, items);
      NonEmptyKeepsAll(xs);
      JoinNonEmpty(xs, ", ");
    case ObjectValue(entries) =>
      var parts := seq(|entries|, i requires 0 <= i < |entries| => ExpressionFromValueAsWritten(stringify, toText, entries[i].value));
      forall i | 0 <= i < |entries| ensures parts[i] == Some(ExpressionFromValue(stringify, entries[i].value)) {
        AsWrittenAgrees(stringify, toText, entries[i].value);
      }
      var ys := seq(|entries|, i requires 0 <= i < |entries| => "\"" + entries[i].key + "\": " + parts[i].value);
      assert ys == EntryTexts(stringify, entries);
  }

  /** The same for a whole argument list. */
  lemma DictionaryLiteralAgrees(stringify: JsonScalar -> string, toText: Value -> string, args: seq<Argument>)
    requires forall x :: stringify(x) != ""
    requires forall i | 0 <= i < |args| :: Unambiguous(args[i].value)
    ensures DictionaryLiteralAsWritten(stringify, toText, args) == Some(DictionaryLiteralForFieldArguments(stringify, args))
  {
    var parts := seq(|args|, i requires 0 <= i < |args| => ExpressionFromValueAsWritten(stringify, toText, args[i].value));
    forall i | 0 <= i < |args| ensures parts[i] == Some(ExpressionFromValue(stringify, args[i].value)) {
      AsWrittenAgrees(stringify, toText, args[i].value);
    }
    var texts := seq(|args|, i requires 0 <= i < |args| => "\"" + args[i].name + "\": " + parts[i].value);
    assert texts == ArgumentTexts(stringify, args);
  }

  /**
   * A `null` argument value makes the source throw, where the intended
   * literal carries the value's JSON text.
   */
  lemma NullArgumentThrows(stringify: JsonScalar -> string, toText: Value -> string)
    ensures DictionaryLiteralAsWritten(stringify, toText, [Argument("id", ScalarValue(JsonNull))]) == None
    ensures DictionaryLiteralForFieldArguments(stringify, [Argument("id", ScalarValue(JsonNull))])
      == "[\"id\": " + stringify(JsonNull) + "]"
  {
    NullArgumentAsWritten(stringify, toText);
    NullArgumentRendered(stringify);
  }

  lemma NullArgumentAsWritten(stringify: JsonScalar -> string, toText: Value -> string)
    ensures DictionaryLiteralAsWritten(stringify, toText, [Argument("id", ScalarValue(JsonNull))]) == None
  {
    assert ReachesNull([Argument("id", ScalarValue(JsonNull))][0].value);
  }

  lemma NullArgumentRendered(stringify: JsonScalar -> string)
    ensures DictionaryLiteralForFieldArguments(stringify, [Argument("id", ScalarValue(JsonNull))])
      == "[\"id\": " + stringify(JsonNull) + "]"
  {
    var args := [Argument("id", ScalarValue(JsonNull))];
    var x := stringify(JsonNull);
    assert ExpressionFromValue(stringify, ScalarValue(JsonNull)) == x;
    assert ArgumentTexts(stringify, args)[0] == "\"id\": " + x;
    assert ArgumentTexts(stringify, args) == ["\"id\": " + x];
    assert "[" + ("\"id\": " + x) + "]" == "[\"id\": " + x + "]";
  }

  /**
   * An empty list argument vanishes from the source's literal, leaving
   * `"ids": ` with no value; the intended literal has `[]` there.
   */
  lemma EmptyListArgumentVanishes(stringify: JsonScalar -> string, toText: Value -> string)
    ensures DictionaryLiteralAsWritten(stringify, toText, [Argument("ids", ListValue([]))]) == Some("[\"ids\": ]")
    ensures DictionaryLiteralForFieldArguments(stringify, [Argument("ids", ListValue([]))]) == "[\"ids\": []]"
  {
    EmptyListArgumentAsWritten(stringify, toText);
    EmptyListArgumentCorrected(stringify);
  }

  lemma EmptyListArgumentAsWritten(stringify: JsonScalar -> string, toText: Value -> string)
    ensures DictionaryLiteralAsWritten(stringify, toText, [Argument("ids", ListValue([]))]) == Some("[\"ids\": ]")
  {
    var args := [Argument("ids", ListValue([]))];
    assert ExpressionFromValueAsWritten(stringify, toText, ListValue([])) == Some("");
    var parts := seq(|args|, i requires 0 <= i < |args| => ExpressionFromValueAsWritten(stringify, toText, args[i].value));
    assert parts == [Some("")];
    var texts := seq(|args|, i requires 0 <= i < |args| => "\"" + args[i].name + "\": " + parts[i].value);
    assert |texts| == 1 && texts[0] == "\"ids\": " + "";
    assert "\"ids\": " + "" == "\"ids\": ";
    assert texts == ["\"ids\": "];
    assert PrintingJoin(texts, ", ") == "\"ids\": ";
    assert !exists i | 0 <= i < |parts| :: parts[i].None?;
    assert OrColon(PrintingJoin(texts, ", ")) == "\"ids\": ";
    assert "[" + "\"ids\": " + "]" == "[\"ids\": ]";
  }

  lemma EmptyListArgumentCorrected(stringify: JsonScalar -> string)
    ensures DictionaryLiteralForFieldArguments(stringify, [Argument("ids", ListValue([]))]) == "[\"ids\": []]"
  {
    var args := [Argument("ids", ListValue([]))];
    assert ExpressionFromValue(stringify, ListValue([])) == "[]";
    assert ArgumentTexts(stringify, args)[0] == "\"ids\": " + "[]";
    assert "\"ids\": " + "[]" == "\"ids\": []";
    var texts := ArgumentTexts(stringify, args);
    assert texts == ["\"ids\": []"];
    assert Join(texts, ", ") == "\"ids\": []";
    assert "[" + "\"ids\": []" + "]" == "[\"ids\": []]";
  }

  /** An empty list inside a list is dropped by the source, so the outer list loses an element. */
  lemma EmptyListItemDropped(stringify: JsonScalar -> string, toText: Value -> string)
    requires stringify(JsonNumber("1")) != ""
    ensures ExpressionFromValueAsWritten(stringify, toText, ListValue([ListValue([]), ScalarValue(JsonNumber("1"))]))
      == Some("[" + stringify(JsonNumber("1")) + "]")
    ensures ExpressionFromValue(stringify, ListValue([ListValue([]), ScalarValue(JsonNumber("1"))]))
      == "[[], " + stringify(JsonNumber("1")) + "]"
  {
    EmptyListItemAsWritten(stringify, toText);
    EmptyListItemCorrected(stringify);
  }

  lemma EmptyListItemAsWritten(stringify: JsonScalar -> string, toText: Value -> string)
    requires stringify(JsonNumber("1")) != ""
    ensures ExpressionFromValueAsWritten(stringify, toText, ListValue([ListValue([]), ScalarValue(JsonNumber("1"))]))
      == Some("[" + stringify(JsonNumber("1")) + "]")
  {
    var one := stringify(JsonNumber("1"));
    var items := [ListValue([]), ScalarValue(JsonNumber("1"))];
    var parts := seq(|items|, i requires 0 <= i < |items| => ExpressionFromValueAsWritten(stringify, toText, items[i]));
    assert parts == [Some(""), Some(one)];
    var xs := seq(|items|, i requires 0 <= i < |items| => parts[i].value);
    assert xs == ["", one];
    assert NonEmpty(xs) == [one] by {
      assert xs[1..] == [one];
      NonEmptyKeepsAll([one]);
    }
  }

  lemma EmptyListItemCorrected(stringify: JsonScalar -> string)
    ensures ExpressionFromValue(stringify, ListValue([ListValue([]), ScalarValue(JsonNumber("1"))]))
      == "[[], " + stringify(JsonNumber("1")) + "]"
  {
    var one := stringify(JsonNumber("1"));
    var items := [ListValue([]), ScalarValue(JsonNumber("1"))];
    assert ItemTexts(stringify, items) == ["[]", one];
    assert Join(["[]", one], ", ") == "[]" + ", " + one by {
      assert ["[]", one][1..] == [one];
    }
  }

  /**
   * An input-object argument value with a field `kind: "Variable"` is taken by
   * the source for a variable reference.
   */
  lemma ObjectWithVariableKindMisread(stringify: JsonScalar -> string, toText: Value -> string)
    ensures ExpressionFromValueAsWritten(stringify, toText, ObjectValue([ObjectEntry("kind", ScalarValue(JsonString("Variable")))]))
      == Some(VariableExpression("undefined"))
  {
    var entries := [ObjectEntry("kind", ScalarValue(JsonString("Variable")))];
    assert FieldNamed(entries, "kind") == Some(ScalarValue(JsonString("Variable")));
    assert entries[1..] == [];
    assert FieldNamed(entries, "variableName") == None;
  }

  /** The intended rendering of that value is a one-entry dictionary. */
  lemma ObjectWithVariableKindRendered(stringify: JsonScalar -> string)
    ensures ExpressionFromValue(stringify, ObjectValue([ObjectEntry("kind", ScalarValue(JsonString("Variable")))]))
      == "[\"kind\": " + stringify(JsonString("Variable")) + "]"
  {
    var v := ScalarValue(JsonString("Variable"));
    var x := ExpressionFromValue(stringify, v);
    assert x == stringify(JsonString("Variable"));
    OneEntryDictionary(stringify, "kind", v);
    Bracketed("\"" + "kind" + "\": ", x);
    KindKeyText();
  }

  lemma Bracketed(a: string, b: string)
    ensures "[" + (a + b) + "]" == ("[" + a) + b + "]"
  {
  }

  lemma KindKeyText()
    ensures "[" + ("\"" + "kind" + "\": ") == "[\"kind\": "
  {
  }

  /** An object value of one entry renders as a dictionary of one pair. */
  lemma OneEntryDictionary(stringify: JsonScalar -> string, key: string, v: Value)
    ensures ExpressionFromValue(stringify, ObjectValue([ObjectEntry(key, v)]))
      == "[" + ("\"" + key + "\": " + ExpressionFromValue(stringify, v)) + "]"
  {
    var texts := EntryTexts(stringify, [ObjectEntry(key, v)]);
    assert texts == ["\"" + key + "\": " + ExpressionFromValue(stringify, v)];
    assert Join(texts, ", ") == texts[0];
  }

  /** In the intended rendering an object value is never a variable reference. */
  lemma ObjectNeverVariable(stringify: JsonScalar -> string, entries: seq<ObjectEntry>, name: string)
    ensures ExpressionFromValue(stringify, ObjectValue(entries)) != VariableExpression(name)
  {
    var r := ExpressionFromValue(stringify, ObjectValue(entries));
    assert r[0] == '[';
    assert VariableExpression(name)[0] == 'G';
  }
}
