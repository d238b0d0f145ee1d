/**
 * The slice of PHP's dynamic values that the request arrays of the panel
 * carry, with the language tests the services apply to them: truthiness,
 * `isset`, `empty`, `??` and `Arr::get`.
 */
module PhpValues {

  /** A PHP value as it appears in a request array (floats and objects are not modelled). */
  datatype Value = Null | Bool(b: bool) | Int(i: int) | Str(s: string) | List(items: seq<Value>)

  /** A PHP associative array keyed by strings, such as the `$data` of a service call. */
  type Data = map<string, Value>

  /** PHP's conversion to bool: `null`, `false`, `0`, `""`, `"0"` and `[]` are false. */
  predicate Truthy(v: Value) {
    match v
    case Null => false
    case Bool(b) => b
    case Int(i) => i != 0
    case Str(s) => s != "" && s != "0"
    case List(items) => |items| > 0
  }

  /** `isset($data[$key])`: the key is present and its value is not null. */
  predicate Isset(data: Data, key: string) {
    key in data && !data[key].Null?
  }

  /** `empty($data[$key])`: the key is missing or its value is falsy. */
  predicate IsEmpty(data: Data, key: string) {
    key !in data || !Truthy(data[key])
  }

  /** `Arr::get($data, $key, $default)`: a present key wins even when its value is null. */
  function ArrGet(data: Data, key: string, default: Value): (v: Value)
    ensures key in data ==> v == data[key]
    ensures key !in data ==> v == default
  {
    if key in data then data[key] else default
  }

  /** `$v ?? $fallback` applied to a value already read. */
  function OrElse(v: Value, fallback: Value): (r: Value)
    ensures v.Null? ==> r == fallback
    ensures !v.Null? ==> r == v
  {
    if v.Null? then fallback else v
  }

  /** `$data[$key] ?? $fallback`: the fallback replaces a missing or null entry. */
  function Coalesce(data: Data, key: string, fallback: Value): (r: Value)
    ensures Isset(data, key) ==> r == data[key]
    ensures !Isset(data, key) ==> r == fallback
  {
    OrElse(ArrGet(data, key, Null), fallback)
  }
}
