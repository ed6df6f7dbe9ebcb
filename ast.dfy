/**
 * The GraphQL document as the compiler receives it from the parser. Type
 * conditions and variable types are already resolved against the schema, and
 * every definition carries its file path and its printed source text.
 */
module Ast {
  import opened Wrappers
  import opened GraphQL

  datatype ValueNode =
    | VariableNode(name: string)
    | BooleanValueNode(value: bool)
    | IntValueNode(text: string)
    | FloatValueNode(text: string)
    | StringValueNode(text: string)
    | EnumValueNode(text: string)
    | NullValueNode
    | ListValueNode(values: seq<ValueNode>)
    | ObjectValueNode(fields: seq<ObjectFieldNode>)

  datatype ObjectFieldNode = ObjectFieldNode(name: string, value: ValueNode)

  datatype ArgumentNode = ArgumentNode(name: string, value: ValueNode)

  datatype DirectiveNode = DirectiveNode(name: string, arguments: seq<ArgumentNode>)

  datatype SelectionNode =
    | FieldNode(
        alias: Option<string>,
        name: string,
        arguments: seq<ArgumentNode>,
        directives: seq<DirectiveNode>,
        selectionSet: Option<SelectionSetNode>)
    | InlineFragmentNode(
        typeCondition: Option<NamedType>,
        directives: seq<DirectiveNode>,
        inlineSelectionSet: SelectionSetNode)
    | FragmentSpreadNode(name: string, directives: seq<DirectiveNode>)

  datatype SelectionSetNode = SelectionSetNode(selections: seq<SelectionNode>)

  datatype VariableDefinitionNode = VariableDefinitionNode(name: string, variableType: TypeRef)

  datatype DefinitionNode =
    | OperationDefinition(
        operation: OperationType,
        name: Option<string>,
        variableDefinitions: seq<VariableDefinitionNode>,
        selectionSet: SelectionSetNode,
        filePath: string,
        printed: string)
    | FragmentDefinition(
        fragmentName: string,
        typeCondition: NamedType,
        selectionSet: SelectionSetNode,
        filePath: string,
        printed: string)
    /** Any other definition (a type-system definition, say): the compiler skips it. */
    | OtherDefinition
}
