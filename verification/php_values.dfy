/** The PHP values a JSON submission decodes to (`FormatJson::decode($s, true)`
    turns JSON objects and lists alike into ordered PHP arrays), and the few
    array operations the linter applies to them. */
module PhpValues {
  import opened Wrappers
  import opened OrderedMaps

  /** A PHP array key: an integer, or a string that is not a decimal integer. */
  datatype Key = IntKey(i: int) | StrKey(s: string)

  /** A decoded value. JSON floating-point numbers are not modelled. */
  datatype Value =
    | Null
    | Bool(b: bool)
    | Int(i: int)
    | Str(s: string)
    | Arr(entries: OMap<Key, Value>)

  /** PHP's conversion to boolean, used by `if ( $x )`. */
  predicate Truthy(v: Value) {
    match v
    case Null => false
    case Bool(b) => b
    case Int(i) => i != 0
    case Str(s) => s != "" && s != "0"
    case Arr(es) => |es| > 0
  }

  /** `$v[$name]` read from an array that holds the key. */
  function Field(v: Value, name: string): (r: Option<Value>)
    ensures r.Some? <==> v.Arr? && StrKey(name) in Keys(v.entries)
  {
    if v.Arr? then Get(v.entries, StrKey(name)) else None
  }

  /** `$v[$name]` as PHP reads it: a missing key, or a value that is not an
      array, reads as null. */
  function Lookup(v: Value, name: string): Value {
    match Field(v, name)
    case Some(x) => x
    case None => Null
  }

  /** `isset( $v[$name] )`: the key is present and its value is not null. */
  predicate IsSet(v: Value, name: string) {
    Field(v, name).Some? && Field(v, name).value != Null
  }

  /** `array_slice` renumbers integer keys from 0 and keeps string keys. */
  function Renumber(es: OMap<Key, Value>, next: int): (r: OMap<Key, Value>)
    ensures Values(r) == Values(es)
    decreases |es|
  {
    if |es| == 0 then []
    else if es[0].0.IntKey? then [(IntKey(next), es[0].1)] + Renumber(es[1..], next + 1)
    else [es[0]] + Renumber(es[1..], next)
  }

  /** `array_slice( $v, 0, $n )`. On a value that is not an array PHP 7 warns
      and returns null. */
  function ArraySlice(v: Value, n: nat): (r: Value)
    ensures v.Arr? <==> r.Arr?
    ensures v.Arr? ==> Values(r.entries) == Take(Values(v.entries), n)
  {
    if v.Arr? then
      ValuesTake(v.entries, n);
      Arr(Renumber(Take(v.entries, n), 0))
    else Null
  }

  lemma ValuesTake<K, V>(m: OMap<K, V>, n: nat)
    ensures Values(Take(m, n)) == Take(Values(m), n)
  {
  }

  /** `$v[$name] = $x` where `$v` is the value currently stored at that place:
      an array gets the key assigned, null and false become a fresh array
      (PHP's auto-vivification), and any other scalar is left as it is (PHP 7
      warns "Cannot use a scalar value as an array"). */
  function Assign(v: Value, name: string, x: Value): (r: Value)
    ensures v.Arr? || v == Null || v == Bool(false) ==> Field(r, name) == Some(x)
    ensures v.Arr? ==> forall other :: other != name ==> Field(r, other) == Field(v, other)
    ensures !(v.Arr? || v == Null || v == Bool(false)) ==> r == v
  {
    match v
    case Arr(es) => Arr(Put(es, StrKey(name), x))
    case Null => Arr([(StrKey(name), x)])
    case Bool(false) => Arr([(StrKey(name), x)])
    case _ => v
  }
}
