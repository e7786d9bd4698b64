/**
 * The parsed JSON value tree that the extractor walks: the six kinds of value
 * of section 3 of RFC 8259 (object, array, string, number, true/false, null).
 */
module JsonValue {

  /** One name/value pair of an object. */
  datatype Property = Property(name: string, value: Json)

  /** A JSON value. An object keeps its properties in document order, and a
      repeated name stays as a second property, as the parsed document
      enumerates it. */
  datatype Json =
    | Object(properties: seq<Property>)
    | Array(items: seq<Json>)
    | String(text: string)
    | Number(value: real)
    | Bool(truth: bool)
    | Null

  /** The string leaves of a value, in depth-first order: property values in
      enumeration order, array items in sequence. */
  function Leaves(t: Json): seq<string>
    decreases t
  {
    match t
    case Object(ps) => PropertyLeaves(ps)
    case Array(vs) => ItemLeaves(vs)
    case String(s) => [s]
    case _ => []
  }

  function ItemLeaves(vs: seq<Json>): seq<string>
    decreases vs
  {
    if vs == [] then [] else ItemLeaves(vs[..|vs| - 1]) + Leaves(vs[|vs| - 1])
  }

  function PropertyLeaves(ps: seq<Property>): seq<string>
    decreases ps
  {
    if ps == [] then [] else PropertyLeaves(ps[..|ps| - 1]) + Leaves(ps[|ps| - 1].value)
  }
}
