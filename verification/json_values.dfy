/**
 Decoded JSON documents as the deduplicator sees them after `json.load`,
 together with Python's truthiness rule and `dict.get`.
 */
module JsonValues {

  datatype Option<T> = None | Some(value: T)

  /** A decoded JSON value. Numbers are kept as their exact decoded value,
      so `1` and `1.0` are the same number, as they are for Python's `==`. */
  datatype Json =
    | Null
    | Bool(b: bool)
    | Num(n: real)
    | Str(s: string)
    | Arr(items: seq<Json>)
    | Obj(fields: map<string, Json>)

  /** Python truthiness: `None`, `False`, zero, and empty strings, lists and
      dicts are false; everything else is true. */
  predicate Truthy(j: Json) {
    match j
    case Null => false
    case Bool(b) => b
    case Num(n) => n != 0.0
    case Str(s) => |s| > 0
    case Arr(a) => |a| > 0
    case Obj(m) => |m| > 0
  }

  /** `dict.get(key)`: a missing key reads as `None`, exactly like a JSON `null`. */
  function Get(doc: map<string, Json>, key: string): (r: Json)
    ensures key !in doc ==> r == Null
    ensures key in doc ==> r == doc[key]
  {
    if key in doc then doc[key] else Null
  }

  /** The value of the Python expression `d.get(k0) or d.get(k1) or ... or d.get(kn)`:
      the first truthy operand, or the last operand when none is truthy. */
  function FirstTruthy(doc: map<string, Json>, keys: seq<string>): (r: Json)
    requires |keys| > 0
    ensures Truthy(r) <==> exists i :: 0 <= i < |keys| && Truthy(Get(doc, keys[i]))
    ensures Truthy(r) ==>
      exists i :: 0 <= i < |keys| && r == Get(doc, keys[i]) &&
        forall j :: 0 <= j < i ==> !Truthy(Get(doc, keys[j]))
    ensures !Truthy(r) ==> r == Get(doc, keys[|keys| - 1])
  {
    if |keys| == 1 || Truthy(Get(doc, keys[0])) then Get(doc, keys[0])
    else
      var r := FirstTruthy(doc, keys[1..]);
      assert forall i :: 1 <= i < |keys| ==> keys[i] == keys[1..][i - 1];
      r
  }

  /** The first truthy operand wins: every operand before it is falsy, and the
      operands after it are never looked at. */
  lemma {:induction false} FirstTruthyPicksFirst(doc: map<string, Json>, keys: seq<string>, i: nat)
    requires i < |keys|
    requires Truthy(Get(doc, keys[i]))
    requires forall j :: 0 <= j < i ==> !Truthy(Get(doc, keys[j]))
    ensures FirstTruthy(doc, keys) == Get(doc, keys[i])
    decreases i
  {
    if i > 0 {
      assert !Truthy(Get(doc, keys[0]));
      FirstTruthyPicksFirst(doc, keys[1..], i - 1);
    }
  }
}
