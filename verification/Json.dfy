/** JSON-like values as jevkit.py walks them. An object's keys are in the order of its
    values; numbers, booleans and null, which are passed over, are Other. */
module Json {
  import opened Wrappers

  datatype Json =
    | Str(text: string)
    | Obj(keys: seq<string>, values: seq<Json>)
    | Arr(items: seq<Json>)
    | Other(literal: string)

  function Members(v: Json): seq<Json> {
    match v
    case Obj(_, values) => values
    case Arr(items) => items
    case _ => []
  }

  /** The value at a place: the members to go into, from the outside in. */
  function NodeAt(v: Json, path: seq<nat>): Option<Json> {
    if path == [] then Some(v)
    else if path[0] < |Members(v)| then NodeAt(Members(v)[path[0]], path[1..])
    else None
  }

  /** The two are alike but for the text of a string and what is inside their members. */
  predicate SameKind(v: Json, w: Json) {
    match (v, w)
    case (Str(_), Str(_)) => true
    case (Obj(keys, values), Obj(keys', values')) => keys == keys' && |values| == |values'|
    case (Arr(items), Arr(items')) => |items| == |items'|
    case (Other(a), Other(b)) => a == b
    case _ => false
  }

  /** Places lead into objects and lists alike, as far as there are members. */
  lemma PlacesInside(keys: seq<string>, values: seq<Json>, i: nat, path: seq<nat>)
    ensures NodeAt(Obj(keys, values), [i] + path) == (if i < |values| then NodeAt(values[i], path) else None)
    ensures NodeAt(Arr(values), [i] + path) == (if i < |values| then NodeAt(values[i], path) else None)
    ensures forall v :: NodeAt(v, []) == Some(v)
  {
    assert ([i] + path)[1..] == path;
  }
}
