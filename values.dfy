/**
 * Python-level vocabulary shared by every other module: the values that flow
 * through a pipeline, their runtime type tags, the error kinds the engine
 * raises, and the small failure-carrying wrappers used to model exceptions.
 */
module Values {

  /** Keys of the data store and names of nodes are Python strings. */
  type Key = string
  type NodeName = string

  datatype Option<+T> = None | Some(value: T) {
    /** `x if x is not None else default`. */
    function GetOr(default: T): T {
      match this
      case Some(v) => v
      case None => default
    }
  }

  /**
   * A runtime type, as returned by Python's `type(v)`.  `NoneType` is the
   * type of `None`; every other type is identified by its class name.
   * Note that an annotation written `-> None` is the value `None`, not the
   * type `NoneType`: annotations are therefore modelled as `Option<TypeTag>`.
   */
  datatype TypeTag = NoneType | ClassTag(name: string)

  /** The closed universe of values the model lets flow through a pipeline. */
  datatype Value =
    | NoneValue
    | IntValue(i: int)
    | StrValue(s: string)
    | ListValue(items: seq<Value>)
    | Record(cls: string, fields: map<string, Value>)

  /** Python's `type(value)`; it is never `None`. */
  function TypeOf(v: Value): TypeTag {
    match v
    case NoneValue => NoneType
    case IntValue(_) => ClassTag("int")
    case StrValue(_) => ClassTag("str")
    case ListValue(_) => ClassTag("list")
    case Record(cls, _) => ClassTag(cls)
  }

  /** The exceptions raised by the engine and its store, by kind. */
  datatype Error =
    | DuplicateNodeName(name: NodeName)          // ValueError: node name already registered
    | DuplicateKey(key: Key)                     // ValueError: output, merge or seed key already registered
    | UnregisteredKey(key: Key)                  // ValueError: input key has no (non-None) registered type
    | TypeMismatch(node: NodeName, expected: Option<TypeTag>, registered: TypeTag)
    | MissingNodeAttributes(name: NodeName)      // KeyError: a bare graph vertex has no "node" attribute
    | CycleDetected                              // networkx: the graph contains a cycle
    | MissingData(key: Key)                      // ValueError from get_data
    | MissingKey(key: Key)                       // KeyError from `del` or a graph lookup

  /** Outcome of an operation that returns nothing in Python but may raise. */
  datatype Outcome = Pass | Fail(error: Error)

  /** Outcome of an operation that returns a value in Python but may raise. */
  datatype Result<+T> = Success(value: T) | Failure(error: Error)
}
