/** Error values standing in for the exceptions of the graph library, and the
    Option / Outcome / Result wrappers that replace `null` and `throw`. */
module Errors {

  /** The messages the library attaches to IllegalArgumentException. */
  datatype Message =
    | DataOrNameNull
    | NameNull
    | DataNull
    | TargetNull
    | AlreadyConnected
    | NotConnected
    | NodeDataNull
    | NodesNull
    | NotMembers
    | NodeOrDataNull
    | NotMember
    | EdgeMissing
    | InvalidNodesOrWeights
    | InvalidNodes
    | SourceNotInGraph

  /** The text of each message, as the Java library spells it. */
  function Text(m: Message): (s: string)
    ensures |s| > 0
  {
    match m
    case DataOrNameNull => "Data and name cannot be null"
    case NameNull => "Name cannot be null"
    case DataNull => "Data cannot be null"
    case TargetNull => "Target node cannot be null"
    case AlreadyConnected => "Nodes are already connected"
    case NotConnected => "Nodes are not connected"
    case NodeDataNull => "Node data cannot be null"
    case NodesNull => "Nodes cannot be null"
    case NotMembers => "Both nodes must be part of the graph"
    case NodeOrDataNull => "Node and new data cannot be null"
    case NotMember => "Node must be part of the graph"
    case EdgeMissing => "Edge does not exist"
    case InvalidNodesOrWeights => "Invalid nodes or weights"
    case InvalidNodes => "Invalid nodes"
    case SourceNotInGraph => "Source node must be part of the graph"
  }

  /** The two exception kinds: IllegalArgumentException (with its message) and
      NegativeWeightException (with the offending edge weight, which the Java
      message embeds). */
  datatype Error =
    | InvalidArgument(message: Message)
    | NegativeWeight(weight: int)

  /** A possibly-null Java reference to a value (`T data`, `String name`, a list). */
  datatype Option<+T> = None | Some(value: T)

  /** The value of `o`, if any, as a sequence of length at most one. */
  function Opt<T>(o: Option<T>): seq<T> {
    if o.Some? then [o.value] else []
  }

  /** Outcome of a `void` method: it returns normally or throws. */
  datatype Outcome = Pass | Fail(error: Error)

  /** Outcome of a value-returning method. */
  datatype Result<+T> = Success(value: T) | Failure(error: Error)
}
