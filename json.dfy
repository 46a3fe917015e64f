/**
 * The values `json.loads` produces, and what Python's `key in value` does
 * with each kind of them when `key` is a `str`.
 */
module Json {
  import opened PyText

  /** A JSON number as Python holds it after decoding: an `int` or a `float`. */
  datatype Number = Int(i: int) | Float(r: real)

  datatype Json =
    | Null
    | Bool(b: bool)
    | Num(n: Number)
    | Str(s: string)
    | Array(items: seq<Json>)
    | Object(fields: map<string, Json>)
  {
    /** A value that `in` can look into: a dict, a list or a str. */
    predicate IsContainer() {
      Object? || Array? || Str?
    }

    /** The name `type(v).__name__` gives for a decoded value. */
    function PyTypeName(): string {
      match this
      case Null => "NoneType"
      case Bool(_) => "bool"
      case Num(Int(_)) => "int"
      case Num(Float(_)) => "float"
      case Str(_) => "str"
      case Array(_) => "list"
      case Object(_) => "dict"
    }
  }

  /** The outcome of evaluating `key in value`: a truth value, or the `TypeError` raised. */
  datatype Containment = Contains(found: bool) | TypeError(message: string)

  /** CPython's message for `x in v` when `v` supports neither `__contains__` nor iteration. */
  function NotIterableMessage(typeName: string): string {
    "argument of type '" + typeName + "' is not iterable"
  }

  /** Substring search, one starting position at a time. */
  function StrIn(t: string, s: string): bool
    decreases |s|
  {
    if |t| > |s| then false
    else s[..|t|] == t || StrIn(t, s[1..])
  }

  lemma {:induction false} StrInMeansOccurs(t: string, s: string)
    ensures StrIn(t, s) <==> exists i :: OccursAt(t, s, i)
    decreases |s|
  {
    if s == [] {
      assert t == [] <==> OccursAt(t, s, 0);
    } else if |t| <= |s| {
      assert OccursAt(t, s, 0) <==> s[..|t|] == t;
      StrInMeansOccurs(t, s[1..]);
      forall i | OccursAt(t, s[1..], i) ensures OccursAt(t, s, i + 1) {
        assert s[i + 1..i + 1 + |t|] == s[1..][i..i + |t|];
      }
      forall i | OccursAt(t, s, i) && i > 0 ensures OccursAt(t, s[1..], i - 1) {
        assert s[i..i + |t|] == s[1..][i - 1..i - 1 + |t|];
      }
    } else {
      forall i | 0 <= i ensures !OccursAt(t, s, i) {
      }
    }
  }

  /** `key in v` for a `str` key, as Python evaluates it on a decoded JSON value. */
  function PyIn(key: string, v: Json): (r: Containment)
    ensures v.Object? ==> r == Contains(key in v.fields)
    ensures v.Array? ==> r == Contains(exists i :: 0 <= i < |v.items| && v.items[i] == Str(key))
    ensures v.Str? ==> r == Contains(exists i :: OccursAt(key, v.s, i))
    ensures !v.IsContainer() ==> r == TypeError(NotIterableMessage(v.PyTypeName()))
  {
    match v
    case Object(fields) => Contains(key in fields)
    case Array(items) => Contains(Str(key) in items)
    case Str(s) => StrInMeansOccurs(key, s); Contains(StrIn(key, s))
    case _ => TypeError(NotIterableMessage(v.PyTypeName()))
  }
}
