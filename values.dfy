/** Option, Result and the failures the merge_vars action raises. */
module Common {

  datatype Option<+T> = None | Some(value: T)

  datatype Result<+T, +E> = Ok(value: T) | Err(error: E)

  /** Every way merge_vars' run can stop with an error. */
  datatype Failure =
    | InvalidOptions(names: set<string>)     // option names outside the accepted four
    | NoFilesOrLiterals                      // neither 'files' nor 'literals' given
    | FilesNotAList                          // 'files' is not a list
    | SourceNotAString                       // an entry of 'files' is not a path string
    | MissingSource(source: string)          // neither file nor directory, and not ignored
    | ExtensionsNotAContainer                // 'extensions' is truthy but no container ('in' raises)
    | LiteralsNotAList                       // 'literals' is not a list
    | MalformedLiteral                       // an item is not a dict with 'path' and 'value'
    | PathNotAString                         // the templated 'path' is not a string
}

/** The variables merge_vars reads and writes: YAML-shaped Python values. */
module Values {
  import opened Common

  /** A Python value as loaded from YAML. Dict keys are strings. */
  datatype Value =
    | Null
    | Bool(b: bool)
    | Int(i: int)
    | Str(s: string)
    | List(items: seq<Value>)
    | Dict(entries: map<string, Value>)

  /** A variable namespace: a dict at the top level. */
  type Vars = map<string, Value>

  /** Python truthiness: None, False, 0 and empty strings, lists and dicts are false. */
  predicate Truthy(v: Value)
  {
    match v
    case Null => false
    case Bool(b) => b
    case Int(i) => i != 0
    case Str(s) => s != ""
    case List(items) => items != []
    case Dict(entries) => entries != map[]
  }

  /**
   * The value reached by following `keys` from `m`, or None when a key is
   * missing or an intermediate value is not a dict.
   */
  function Lookup(m: Vars, keys: seq<string>): Option<Value>
    requires |keys| >= 1
    decreases |keys|
  {
    if keys[0] !in m then None
    else if |keys| == 1 then Some(m[keys[0]])
    else match m[keys[0]]
      case Dict(child) => Lookup(child, keys[1..])
      case _ => None
  }

  /** Python's `d.get(key)` at the end of the path: a missing value reads as None. */
  function LookupOrNull(m: Vars, keys: seq<string>): Value
    requires |keys| >= 1
  {
    match Lookup(m, keys)
    case Some(v) => v
    case None => Null
  }

  /** The dict stored under `key`, or a fresh empty dict when it is missing or not a dict. */
  function ChildDict(m: Vars, key: string): Vars
  {
    if key in m && m[key].Dict? then m[key].entries else map[]
  }
}
