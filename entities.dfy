/**
  The entities a GBOML graph is assembled from: nodes and hyperedges, as produced by the
  parser, together with the edit queues the graph API appends to and the error conditions
  it reports.
*/
module Entities {
  import opened Wrappers

  /** The tag that separates the parser's Node objects from its Hyperlink objects. */
  datatype Kind = Node | Hyperedge

  /**
    A value handed to the parameter-redefinition API, classified by its Python runtime
    type. Python's `bool` is a subclass of `int`, so it is kept apart only to show that
    it is accepted as a number. Floats are only stored, never computed with, so `real`
    stands in for them.
  */
  datatype Value =
    | Str(s: string)
    | Int(i: int)
    | Float(x: real)
    | Bool(b: bool)
    | List(items: seq<Value>)
    | Other(typeName: string)

  /** `Expression('literal', v)`: a literal wrapping a value verbatim. */
  datatype Expression = Literal(value: Value)

  /** The three normal forms of a queued parameter redefinition. */
  datatype ParameterChange =
    | ScalarChange(name: string, expr: Expression)
    | VectorChange(name: string, vector: seq<Expression>)
    | FileChange(name: string, filename: string)

  /** `VariableType`: the classification a variable can be moved to. */
  datatype VariableType = External | Internal
  {
    /** The enum member's string value, which is what the queue records. */
    function Tag(): (t: string)
      ensures t == "external" || t == "internal"
      ensures t == "external" <==> this == External
    {
      match this
      case External => "external"
      case Internal => "internal"
    }
  }

  /** `[variable_name, variable_type.value, 0]`: the last slot is a source-line placeholder. */
  datatype VariableChange = VariableChange(name: string, variableType: string, line: int)

  /** `[old_node_name, new_node_name, None]` queued on a hyperedge. */
  datatype NameChange = NameChange(oldName: string, newName: string, line: Option<int>)

  /** A named constraint or objective; its expression is opaque here. */
  datatype Named = Named(name: string, payload: nat)

  /** The horizon object `Time("T", Expression('literal', n))`, reduced to its name and length. */
  datatype Time = Time(name: string, length: int)

  /**
    The conditions under which the source calls its aborting error routine, and the key
    error that fetching a name index with a whole path raises.
  */
  datatype Error =
    | DuplicateIdentifier(name: string)
    | UnknownIdentifier(name: string)
    | InvalidDescent(name: string)
    | KindMismatch(wanted: Kind, found: Option<Kind>)
    | ArityMismatch(parameterCount: nat, valueCount: nat)
    | UnacceptedType(typeName: string)
    | NotFound(unmatched: seq<string>, owner: string)
    | MissingKey(key: seq<string>)

  datatype Outcome = Pass | Fail(error: Error)

  /**
    A node or a hyperedge. `internal` is the node's name index of its sub-nodes and
    sub-hyperedges (`get_internal_dict()`); a hyperedge is a leaf and its map is never
    consulted. The three queues and the two collections are what the graph API edits.
  */
  class Entity {
    const kind: Kind
    var name: string
    var internal: map<string, Entity>
    var constraints: seq<Named>
    var objectives: seq<Named>
    var parameterChanges: seq<ParameterChange>
    var variableChanges: seq<VariableChange>
    var nameChanges: seq<NameChange>

    /** What the parser hands over: a named entity with its sub-entities and statements, and empty queues. */
    constructor (kind: Kind, name: string, internal: map<string, Entity>,
                 constraints: seq<Named>, objectives: seq<Named>)
      ensures this.kind == kind && this.name == name && this.internal == internal
      ensures this.constraints == constraints && this.objectives == objectives
      ensures parameterChanges == [] && variableChanges == [] && nameChanges == []
    {
      this.kind := kind;
      this.name := name;
      this.internal := internal;
      this.constraints := constraints;
      this.objectives := objectives;
      parameterChanges := [];
      variableChanges := [];
      nameChanges := [];
    }
  }
}
