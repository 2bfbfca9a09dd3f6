/**
  Avatar messages as the services pass them around: Python dicts with
  `text`, `facialExpression` and `animation` keys, produced by the language
  model (so any key may be missing and any value may have any JSON type) or
  built by the booking logic.
 */
module Messages {
  import opened Wrappers

  /** A dict value. The chat path only ever asks a value for its truthiness
      and its `str()` rendering, so a non-string value is carried as exactly
      those two facts. */
  datatype Field = Str(s: string) | Opaque(rendered: string, truthy: bool)

  /** Python truthiness: a string is truthy when non-empty. */
  predicate Truthy(f: Field) {
    if f.Str? then f.s != "" else f.truthy
  }

  /** Python `str(value)`. */
  function Render(f: Field): string {
    if f.Str? then f.s else f.rendered
  }

  /** A list element: a dict, or something that is not a dict at all. */
  datatype Entry = NonDict | Dict(fields: map<string, Field>)

  /** `m.get(key)` on a dict entry; `None` for a missing key or a non-dict. */
  function Get(e: Entry, key: string): Option<Field> {
    if e.Dict? && key in e.fields then Some(e.fields[key]) else None
  }

  /** `bool(m.get(key))`. */
  predicate HasTruthy(e: Entry, key: string) {
    Get(e, key).Some? && Truthy(Get(e, key).value)
  }

  /** A message dict built by the services themselves. */
  function Make(text: string, facialExpression: string, animation: string): (e: Entry)
    ensures Get(e, "text") == Some(Str(text))
    ensures Get(e, "facialExpression") == Some(Str(facialExpression))
    ensures Get(e, "animation") == Some(Str(animation))
  {
    Dict(map["text" := Str(text), "facialExpression" := Str(facialExpression), "animation" := Str(animation)])
  }
}
