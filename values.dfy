/**
 * The PHP values that the encoder is given, the run-time type tests its dispatch
 * applies to them, and the key handling of PHP arrays.
 */
module Values {
  import opened Bytes

  /** A key of a PHP array, or a key yielded by a Traversable. */
  datatype Key = IntKey(i: int) | StrKey(s: bytes)

  /**
   * The shapes `encodeValue` tells apart. Containers are given by what a
   * `foreach` over them yields, in iteration order.
   */
  datatype Value =
    | Int(n: int)                              // an `int`
    | Str(s: bytes)                            // a `string`
    | Arr(entries: seq<(Key, Value)>)          // an `array`: key => value pairs
    | ListOf(items: seq<Value>)                // a `ListType` object: the values it yields
    | Traversable(pairs: seq<(Key, Value)>)    // any other `\Traversable`: key => value pairs
    | StdClass(props: seq<(bytes, Value)>)     // a `\stdClass`: property name => value
    | Scalar(text: bytes)                      // a float, bool or `__toString` object, already coerced to its string

  // The type tests of `encodeValue`, in the order it applies them.

  /** `is_int($value)` */
  predicate IsInt(v: Value) { v.Int? }

  /** `is_array($value)` */
  predicate IsArray(v: Value) { v.Arr? }

  /** `$value instanceof ListType` */
  predicate IsListType(v: Value) { v.ListOf? }

  /** `$value instanceof \Traversable`: a ListType object is one as well. */
  predicate IsTraversable(v: Value) { v.ListOf? || v.Traversable? }

  /** `$value instanceof \stdClass` */
  predicate IsStdClass(v: Value) { v.StdClass? }

  /** The text of a value that reaches the string fallback of `encodeValue`. */
  function StringOf(v: Value): bytes
    requires v.Str? || v.Scalar?
  {
    if v.Str? then v.s else v.text
  }

  /**
   * The keys of a PHP array are exactly 0, 1, ..., n-1 in iteration order,
   * compared with `!==`, so a string key never matches.
   */
  predicate IsSequential(entries: seq<(Key, Value)>) {
    forall i :: 0 <= i < |entries| ==> entries[i].0 == IntKey(i)
  }

  /** The values of key => value pairs, in order (what `foreach ($a as $v)` yields). */
  function ValuesOf(entries: seq<(Key, Value)>): (r: seq<Value>)
    ensures |r| == |entries|
    ensures forall i :: 0 <= i < |entries| ==> r[i] == entries[i].1
  {
    seq(|entries|, i requires 0 <= i < |entries| => entries[i].1)
  }

  /**
   * `strval($key)` for a key of an array or a Traversable: an integer key
   * becomes its canonical decimal text, a string key stays as it is.
   */
  function Strval(k: Key): (r: bytes)
    ensures k.IntKey? ==> IsIntText(r) && IntTextValue(r) == k.i
    ensures k.StrKey? ==> r == k.s
  {
    IntToDecimalValue(if k.IntKey? then k.i else 0);
    match k
    case IntKey(i) => IntToDecimal(i)
    case StrKey(s) => s
  }

  /** The rows `encodeDictionary` collects: each key through `strval`, with its value. */
  function StrvalRows(pairs: seq<(Key, Value)>): (r: seq<(bytes, Value)>)
    ensures |r| == |pairs|
    ensures forall i :: 0 <= i < |pairs| ==> r[i] == (Strval(pairs[i].0), pairs[i].1)
  {
    seq(|pairs|, i requires 0 <= i < |pairs| => (Strval(pairs[i].0), pairs[i].1))
  }

  const PhpIntMin: int := -0x8000_0000_0000_0000
  const PhpIntMax: int := 0x7FFF_FFFF_FFFF_FFFF

  /**
   * The key PHP stores for a string used as an array key: a string that is the
   * canonical decimal text of an integer in the range of `int` is stored as that
   * integer, any other string as itself.
   */
  function ArrayKey(name: bytes): (k: Key)
    ensures Strval(k) == name
  {
    if IsIntText(name) && PhpIntMin <= IntTextValue(name) <= PhpIntMax then
      IntToDecimalOfValue(name);
      IntKey(IntTextValue(name))
    else
      StrKey(name)
  }

  /** `(array)$object` for a stdClass: its properties as array entries, in order. */
  function ObjectToArray(props: seq<(bytes, Value)>): (r: seq<(Key, Value)>)
    ensures |r| == |props|
    ensures forall i :: 0 <= i < |props| ==> r[i] == (ArrayKey(props[i].0), props[i].1)
  {
    seq(|props|, i requires 0 <= i < |props| => (ArrayKey(props[i].0), props[i].1))
  }
}
