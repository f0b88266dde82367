/**
 * Decoded JSON values, and how the PHP server side and the JavaScript
 * client side each look at them.
 */
module JsonValue {
  import opened Optional

  /**
   * A decoded JSON value. Numbers are mathematical reals (JSON has no NaN or
   * infinity); an object keeps its members in source order. A key may repeat
   * here, although both real decoders keep only its last value; values with a
   * repeated key fall outside what the model describes.
   */
  datatype Json =
    | Null
    | Bool(b: bool)
    | Num(n: real)
    | Str(s: string)
    | Arr(elems: seq<Json>)
    | Obj(fields: seq<(string, Json)>)

  /** What entity decoding followed by JSON decoding produced: a value, or a decode error. */
  datatype Decoded = DecodeFailed | Decoded(value: Json)

  /** The value of the first member named `key`, if there is one. */
  function Lookup(fields: seq<(string, Json)>, key: string): (r: Option<Json>)
    ensures r.Some? <==> exists i :: 0 <= i < |fields| && fields[i].0 == key
    ensures r.Some? ==> exists i :: 0 <= i < |fields| && fields[i] == (key, r.value)
  {
    if fields == [] then None
    else if fields[0].0 == key then Some(fields[0].1)
    else
      var r := Lookup(fields[1..], key);
      assert forall i :: 1 <= i < |fields| ==> fields[i] == fields[1..][i - 1];
      r
  }
}

/**
 * PHP's view of a value that `json_decode($text, TRUE)` produced: JSON arrays
 * and JSON objects both become PHP arrays (ordered maps).
 */
module PhpSemantics {
  import opened Optional
  import opened JsonValue

  /** `is_array($v)`: true of JSON arrays and of JSON objects. */
  predicate IsArray(v: Json) {
    v.Arr? || v.Obj?
  }

  /** The values a `foreach` over the PHP array visits, in order (none for a scalar). */
  function Values(v: Json): (r: seq<Json>)
    ensures v.Arr? ==> r == v.elems
    ensures v.Obj? ==> |r| == |v.fields| && forall i :: 0 <= i < |r| ==> r[i] == v.fields[i].1
    ensures !IsArray(v) ==> r == []
  {
    match v
    case Arr(elems) => elems
    case Obj(fields) => seq(|fields|, i requires 0 <= i < |fields| => fields[i].1)
    case _ => []
  }

  /**
   * `$v['key']` for a non-numeric string key: the member's value, or NULL when
   * the key is absent or `$v` is not an associative array. (A list has only
   * integer keys.)
   */
  function Index(v: Json, key: string): (r: Json)
    ensures r != Null ==> v.Obj?
  {
    if v.Obj? then
      match Lookup(v.fields, key)
      case Some(x) => x
      case None => Null
    else Null
  }

  /** `isset($v['key'])`: the key is present and its value is not NULL. */
  predicate Isset(v: Json, key: string) {
    Index(v, key) != Null
  }

  /** The `(bool)` cast. */
  function ToBool(v: Json): (r: bool)
    ensures !r <==> v == Null || v == Bool(false) || v == Num(0.0) || v == Str("") || v == Str("0")
                    || v == Arr([]) || v == Obj([])
  {
    match v
    case Null => false
    case Bool(b) => b
    case Num(n) => n != 0.0
    case Str(s) => s != "" && s != "0"
    case Arr(elems) => |elems| > 0
    case Obj(fields) => |fields| > 0
  }
}

/** JavaScript's view of a value that `JSON.parse` produced; `None` is `undefined`. */
module JsSemantics {
  import opened Optional
  import opened JsonValue

  /** Property access `v.key` on a parsed value: only objects have own properties here. */
  function Get(v: Json, key: string): (r: Option<Json>)
    ensures r.Some? ==> v.Obj?
  {
    if v.Obj? then Lookup(v.fields, key) else None
  }

  /** JavaScript truthiness; an empty array and an empty object are truthy. */
  function Truthy(v: Option<Json>): (r: bool)
    ensures !r <==> v == None || v == Some(Null) || v == Some(Bool(false)) || v == Some(Num(0.0))
                    || v == Some(Str(""))
  {
    match v
    case None => false
    case Some(x) =>
      match x
      case Null => false
      case Bool(b) => b
      case Num(n) => n != 0.0
      case Str(s) => s != ""
      case Arr(_) => true
      case Obj(_) => true
  }
}
