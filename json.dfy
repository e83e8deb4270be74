/** JSON values as Python's `json` module hands them to the pipeline, and the
    few Python built-ins the pipeline applies to them (truthiness, `dict.get`,
    `x or default`, `str(x)`). */
module JsonValues {

  datatype Option<+T> = None | Some(value: T)

  datatype Result<+T, +E> = Ok(value: T) | Err(error: E)

  /** A decoded JSON value. Integers and floats stay apart, as `json.loads`
      keeps them apart; a float is modelled by its exact real value. */
  datatype Json =
    | Null
    | Bool(b: bool)
    | Int(i: int)
    | Float(x: real)
    | Str(s: string)
    | Arr(items: seq<Json>)
    | Obj(fields: map<string, Json>)

  /** A Python dict decoded from a JSON object (a feature, a property bag). */
  type Dict = map<string, Json>

  /** Python truthiness: `None`, `False`, zero, `""`, `[]` and `{}` are false. */
  predicate Truthy(j: Json) {
    match j
    case Null => false
    case Bool(b) => b
    case Int(i) => i != 0
    case Float(x) => x != 0.0
    case Str(s) => s != ""
    case Arr(xs) => xs != []
    case Obj(m) => m != map[]
  }

  /** `d.get(k)`: `None` when the key is absent. */
  function Get(d: Dict, k: string): Json {
    if k in d then d[k] else Null
  }

  /** `x or fallback` */
  function Or(x: Json, fallback: Json): Json {
    if Truthy(x) then x else fallback
  }

  /** A value on which the source calls string methods after `x or ''`: a
      string, or anything falsy (which the `or` replaces by `''`). */
  predicate TextLike(j: Json) {
    j.Str? || !Truthy(j)
  }

  /** `(x or '')` for a text-like value. */
  function TextOf(j: Json): (s: string)
    requires TextLike(j)
    ensures Truthy(j) <==> s != ""
  {
    if j.Str? then j.s else ""
  }

  /** `feature.get('properties') or {}` succeeds and yields a dict exactly
      when the stored value is a dict or falsy. */
  predicate PropsReadable(f: Dict) {
    var p := Get(f, "properties");
    p.Obj? || !Truthy(p)
  }

  /** `feature.get('properties') or {}` */
  function PropsOf(f: Dict): Dict {
    var p := Get(f, "properties");
    if p.Obj? then p.fields else map[]
  }

  /** The serialisers and the digest the source borrows from its libraries:
      `json.dumps(v, sort_keys=True)`, `hashlib.sha1(s).hexdigest()`, and the
      text `str()` gives a float, a list or a dict. They are parameters of
      the model, so every property proved holds for any choice of them. */
  datatype Externals = Externals(
    canonJson: Json -> string,
    sha1Hex: string -> string,
    formatOther: Json -> string)

  /** `sha1(json.dumps(v, sort_keys=True)).hexdigest()` */
  function Digest(ext: Externals, v: Json): string {
    ext.sha1Hex(ext.canonJson(v))
  }

  /** Decimal digits of a natural number, most significant first. */
  function NatDigits(n: nat): (s: string)
    ensures |s| > 0
    ensures forall i :: 0 <= i < |s| ==> '0' <= s[i] <= '9'
    decreases n
  {
    var d := [('0' as int + n % 10) as char];
    if n < 10 then d else NatDigits(n / 10) + d
  }

  /** Python's `str(x)`: strings are themselves, `None`, booleans and
      integers have fixed spellings, the rest is left to `formatOther`. */
  function PyStr(ext: Externals, j: Json): string {
    match j
    case Str(s) => s
    case Null => "None"
    case Bool(b) => if b then "True" else "False"
    case Int(i) => if i < 0 then "-" + NatDigits(-i) else NatDigits(i)
    case _ => ext.formatOther(j)
  }
}
