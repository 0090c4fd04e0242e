/** JSON values, and the claims path pointers that select within them. */
module Json {

  /** A JSON value. An object lists its own keys in enumeration order beside the
      fields they name. */
  datatype Json =
    | Null
    | Bool(b: bool)
    | Num(n: real)
    | Str(s: string)
    | Arr(items: seq<Json>)
    | Obj(keys: seq<string>, fields: map<string, Json>)

  /** Every object enumerates each of its keys once. */
  ghost predicate WellFormed(j: Json) {
    match j
    case Arr(items) => forall i :: 0 <= i < |items| ==> WellFormed(items[i])
    case Obj(keys, fields) =>
      && (forall k :: k in keys <==> k in fields)
      && (forall i, i' :: 0 <= i < i' < |keys| ==> keys[i] != keys[i'])
      && forall k :: k in fields ==> WellFormed(fields[k])
    case _ => true
  }

  /** A segment of a claims path pointer: an object key, an array index, or the
      `null` that selects all elements of an array. */
  datatype Segment = Key(name: string) | Index(n: int) | Wildcard

  type Path = seq<Segment>

  /** `toString` of a string or number segment. */
  function SegmentName(segment: Segment): string {
    match segment
    case Key(name) => name
    case Index(n) => Decimal(n)
    case Wildcard => "null"
  }

  function Decimal(n: int): string
    decreases n < 0, if n < 0 then -n else n
  {
    if n < 0 then "-" + Decimal(-n)
    else if n < 10 then [Digit(n)]
    else Decimal(n / 10) + [Digit(n % 10)]
  }

  function Digit(n: nat): char
    requires n < 10
  {
    "0123456789"[n]
  }

  predicate IsPathEqual(pathA: Path, pathB: Path): (r: bool)
    ensures r <==> pathA == pathB
  {
    |pathA| == |pathB| && forall i :: 0 <= i < |pathA| ==> pathA[i] == pathB[i]
  }

  /** Whether `prefix` is a strict prefix of `fullPath`. */
  predicate IsPrefixOf(prefix: Path, fullPath: Path): (r: bool)
    ensures r <==> prefix < fullPath
  {
    |prefix| < |fullPath| && forall i :: 0 <= i < |prefix| ==> prefix[i] == fullPath[i]
  }
}
