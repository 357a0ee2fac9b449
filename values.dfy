/** Values the gateway moves around: JSON-like field values, documents
    (field maps), HTTP outcomes, and the small sequence helpers that
    Python's slicing and list comprehensions stand for. */
module Values {

  datatype Option<T> = None | Some(value: T)

  /** A field value of a stored or serialized document. `ObjectId` is the
      store's native identifier; its text form is not interpreted here. */
  datatype Value =
    | Null
    | Bool(b: bool)
    | Int(i: int)
    | Str(s: string)
    | ObjectId(raw: string)
    | Arr(items: seq<Value>)
    | Obj(fields: map<string, Value>)

  /** A document: a field map (a Python dict with string keys). */
  type Doc = map<string, Value>

  /** What an endpoint hands back: a body with status 200/201, or an
      HTTPException with its status code and detail text. */
  datatype Response<T> = Ok(body: T) | HttpError(status: int, detail: string)

  /** Python's `s[:n]` for a non-negative `n`: the longest prefix of `s`
      that has at most `n` elements. */
  function Take<T>(s: seq<T>, n: nat): (r: seq<T>)
    ensures |r| <= n && |r| <= |s|
    ensures |s| <= n ==> r == s
    ensures n <= |s| ==> |r| == n
    ensures forall i :: 0 <= i < |r| ==> r[i] == s[i]
  {
    if |s| <= n then s else s[..n]
  }

  /** A list of Python strings as a list of field values. */
  function Strs(ss: seq<string>): (r: seq<Value>)
    ensures |r| == |ss|
    ensures forall i :: 0 <= i < |ss| ==> r[i] == Str(ss[i])
  {
    seq(|ss|, i requires 0 <= i < |ss| => Str(ss[i]))
  }

  /** Python truthiness of `os.getenv(...)`: unset (None) and the empty
      string are both false. */
  function Truthy(v: Option<string>): (b: bool)
    ensures v.None? ==> !b
    ensures v == Some("") ==> !b
    ensures v.Some? && |v.value| > 0 ==> b
  {
    v.Some? && v.value != ""
  }
}
