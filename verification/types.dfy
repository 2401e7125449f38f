/** The records the engine passes around (`confetti/core/types.py`) and the
    value and document shapes shared by every module. */
module Types {
  import opened Wrappers
  import opened Dicts

  /** A scalar configuration value. Numbers other than integers, dates and
      other YAML scalars are `Opaque`: the engine only copies and compares them. */
  datatype Value = Str(s: string) | Int(i: int) | Bool(b: bool) | Null | Opaque(token: nat)

  /** A parsed YAML/JSON document: a scalar, a list or an insertion-ordered
      mapping. Used for structured sources and for the `confetti.yaml` file. */
  datatype Tree = Leaf(value: Value) | List(items: seq<Tree>) | Node(entries: seq<Entry<Tree>>)

  /** Python truthiness of a document value, as `if x:` reads it. Opaque
      scalars (floats, dates) are taken to be truthy. */
  predicate Truthy(t: Tree) {
    match t
    case Leaf(Str(s)) => s != ""
    case Leaf(Int(i)) => i != 0
    case Leaf(Bool(b)) => b
    case Leaf(Null) => false
    case Leaf(Opaque(_)) => true
    case List(items) => |items| > 0
    case Node(es) => |es| > 0
  }

  /** The time a value was loaded; opaque to the engine. */
  datatype Timestamp = Timestamp(tick: nat)

  /** Which source produced an effective key. */
  datatype ProvenanceRecord = ProvenanceRecord(key: string, sourceId: string, sourceKey: string, loaded: Timestamp)

  datatype Op = SetOp | UnsetOp

  /** A staged mutation: `op` is `set` or `unset`, `value` is absent for `unset`. */
  datatype ConfigChange = ConfigChange(op: Op, key: string, value: Option<Value>, target: string)

  /** The records `Config.set` and `Config.unset` build. */
  function SetChange(key: string, v: Value, target: string): (c: ConfigChange)
    ensures c.op == SetOp && c.key == key && c.target == target && c.value == Some(v)
    ensures WellFormed(c)
  {
    ConfigChange(SetOp, key, Some(v), target)
  }

  function UnsetChange(key: string, target: string): (c: ConfigChange)
    ensures c.op == UnsetOp && c.key == key && c.target == target
    ensures WellFormed(c)
  {
    ConfigChange(UnsetOp, key, None, target)
  }

  /** The value is present exactly for `set`. */
  predicate WellFormed(c: ConfigChange) {
    c.value.Some? <==> c.op == SetOp
  }

  /** The error kinds the modelled code raises. */
  datatype Error =
    | NoSourcesRegistered          // ValueError from target resolution
    | NotWritable(sourceId: string) // PermissionError from save
    | UnsupportedSource(location: string)
    | MissingPathOrUri
    | BadGitHubUri
    | MissingGitHubToken
    | InvalidConfigFile
    | WrongShape                   // TypeError / AttributeError on a mis-shaped entry
    | BadInterpolation             // configparser InterpolationError while reading a value
    | InvalidInterpolationSyntax   // ValueError from configparser when a value is set
    | BadIniFile                   // configparser ParsingError while the file is read
}
