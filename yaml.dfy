/**
 * What PyYAML's `safe_load` hands back to Python, taken as an input: the
 * parser itself is outside the model. `Overlay` is the
 * copy-defaults-then-update merge both configuration loaders perform.
 */
module Yaml {

  /** A loaded YAML value; `Other` stands for any other scalar (a number, a date) with the text Python's `str()` gives it. */
  datatype Value =
    | Str(s: string)
    | Bool(b: bool)
    | List(items: seq<Value>)
    | Dict(entries: map<string, Value>)
    | Null
    | Other(text: string)

  /** The outcome of reading and loading one document: an exception, or a mapping (`safe_load(...) or {}`). */
  datatype Parsed = Failure(reason: string) | Mapping(data: map<string, Value>)

  /**
   * `out = dict(base); out.update({k: v for k, v in data.items() if v is not None})`:
   * every key of `base`, and every key of `data` whose value is not `None`,
   * with the loaded value winning.
   */
  function Overlay(base: map<string, Value>, data: map<string, Value>): (out: map<string, Value>)
    ensures forall k :: k in out <==> k in base || (k in data && data[k] != Null)
    ensures forall k :: k in data && data[k] != Null ==> out[k] == data[k]
    ensures forall k :: k in base && (k !in data || data[k] == Null) ==> out[k] == base[k]
  {
    base + map k | k in data && data[k] != Null :: data[k]
  }

  /** Loading nothing leaves the base as it is. */
  lemma OverlayEmpty(base: map<string, Value>)
    ensures Overlay(base, map[]) == base
  {
  }
}
