/**
  The document tree produced by the YAML parser (`yaml_rust::Yaml`): the
  input of the converter. The parser owns it; the converter only reads it.
 */
module YamlRust {
  import opened RustInt
  import opened LinkedMap

  datatype Yaml =
    | Real(lexeme: string)
    | Integer(number: i64)
    | String(text: string)
    | Boolean(flag: bool)
    | Array(items: seq<Yaml>)
    /** A `LinkedHashMap<Yaml, Yaml>`, as its entries in insertion order. */
    | Hash(entries: seq<Pair<Yaml, Yaml>>)
    | Alias(anchor: usize)
    | Null
    | BadValue

  /** The position of the variant in the declaration. */
  function Tag(y: Yaml): nat
  {
    match y
    case Real(_) => 0
    case Integer(_) => 1
    case String(_) => 2
    case Boolean(_) => 3
    case Array(_) => 4
    case Hash(_) => 5
    case Alias(_) => 6
    case Null => 7
    case BadValue => 8
  }

  /**
    What the parser guarantees: every hash, at every depth, is a map and so
    holds each key once.
   */
  predicate WellFormed(y: Yaml)
  {
    match y
    case Array(xs) => forall i :: 0 <= i < |xs| ==> WellFormed(xs[i])
    case Hash(es) =>
      && DistinctKeys(es)
      && forall i :: 0 <= i < |es| ==> WellFormed(es[i].key) && WellFormed(es[i].value)
    case _ => true
  }
}
