/**
 * The Bencode text that `Encoder::encode` produces for a PHP value, as functions:
 * the four productions `i<n>e`, `<len>:<bytes>`, `l...e` and `d...e`, and the
 * choice among them that `encodeValue` makes.
 *
 * The functions here are the specification the methods of `Engine.Encoder` are
 * proved against, and the lemmas state what the encoding promises.
 */
module Bencode {
  import opened Bytes
  import opened KeySort
  import opened Values

  /** The pieces joined end to end (`implode` without a separator). */
  function Concat(parts: seq<bytes>): (r: bytes)
    ensures parts == [] ==> r == []
  {
    if parts == [] then [] else Concat(parts[..|parts| - 1]) + parts[|parts| - 1]
  }

  /** `encodeInteger`: the decimal text of the integer between `i` and `e`. */
  function EncodeInteger(n: int): (r: bytes)
    ensures |r| >= 3 && r[0] == LowerI && r[|r| - 1] == LowerE
    ensures IsIntText(r[1..|r| - 1]) && IntTextValue(r[1..|r| - 1]) == n
  {
    var r := [LowerI] + IntToDecimal(n) + [LowerE];
    assert r[1..|r| - 1] == IntToDecimal(n);
    IntToDecimalValue(n);
    r
  }

  /**
   * `encodeString`: the byte length as decimal text, a colon, then the bytes
   * themselves; read from the end, the string, the colon, and a length that
   * reads back as the number of bytes.
   */
  function EncodeString(s: bytes): (r: bytes)
    ensures |r| >= |s| + 2
    ensures r[|r| - |s|..] == s && r[|r| - |s| - 1] == Colon
    ensures IsNatText(r[..|r| - |s| - 1]) && DigitsValue(r[..|r| - |s| - 1]) == |s|
  {
    var len := NatDigits(|s|);
    var r := len + [Colon] + s;
    assert r[..|r| - |s| - 1] == len && r[|r| - |s|..] == s;
    NatDigitsValue(|s|);
    r
  }

  /** `"l{$list}e"`: the encodings of the elements in order, between `l` and `e`. */
  function ListToken(parts: seq<bytes>): bytes {
    [LowerL] + Concat(parts) + [LowerE]
  }

  /** A dictionary row as emitted: the key as a byte string, then the value's encoding. */
  function RowToken(row: (bytes, bytes)): bytes {
    EncodeString(row.0) + row.1
  }

  function RowTokens(rows: seq<(bytes, bytes)>): (r: seq<bytes>)
    ensures |r| == |rows|
    ensures forall i :: 0 <= i < |rows| ==> r[i] == RowToken(rows[i])
  {
    seq(|rows|, i requires 0 <= i < |rows| => RowToken(rows[i]))
  }

  /**
   * `"d{$dict}e"` for rows of (key text, encoded value): the rows sorted by key
   * with `strcmp`, each key written as a byte string and followed by its value.
   */
  function DictToken(rows: seq<(bytes, bytes)>): bytes {
    [LowerD] + Concat(RowTokens(SortByKey(rows))) + [LowerE]
  }

  /**
   * `encodeValue`: the Bencode text of a value. Integers give integers; an array
   * gives a list when its keys are 0..n-1 in order and a dictionary otherwise;
   * a ListType gives a list; any other Traversable, and a stdClass through its
   * array cast, give dictionaries; everything else is written as a byte string.
   */
  function Encoded(v: Value): (r: bytes)
    decreases v
  {
    match v
    case Int(n) => EncodeInteger(n)
    case Arr(entries) =>
      if IsSequential(entries) then
        ListToken(seq(|entries|, i requires 0 <= i < |entries| => Encoded(entries[i].1)))
      else
        DictToken(seq(|entries|, i requires 0 <= i < |entries| => (Strval(entries[i].0), Encoded(entries[i].1))))
    case ListOf(items) =>
      ListToken(seq(|items|, i requires 0 <= i < |items| => Encoded(items[i])))
    case Traversable(pairs) =>
      DictToken(seq(|pairs|, i requires 0 <= i < |pairs| => (Strval(pairs[i].0), Encoded(pairs[i].1))))
    case StdClass(props) =>
      var entries := ObjectToArray(props);
      DictToken(seq(|entries|, i requires 0 <= i < |entries| => (Strval(entries[i].0), Encoded(entries[i].1))))
    case Str(s) => EncodeString(s)
    case Scalar(text) => EncodeString(text)
  }

  /** The encodings of a sequence of values, in order. */
  function EncodedValues(items: seq<Value>): (r: seq<bytes>)
    ensures |r| == |items|
    ensures forall i :: 0 <= i < |items| ==> r[i] == Encoded(items[i])
  {
    seq(|items|, i requires 0 <= i < |items| => Encoded(items[i]))
  }

  /** Key => value pairs as dictionary rows: the key through `strval`, the value encoded. */
  function EncodedRows(pairs: seq<(Key, Value)>): (r: seq<(bytes, bytes)>)
    ensures |r| == |pairs|
    ensures forall i :: 0 <= i < |pairs| ==> r[i] == (Strval(pairs[i].0), Encoded(pairs[i].1))
  {
    seq(|pairs|, i requires 0 <= i < |pairs| => (Strval(pairs[i].0), Encoded(pairs[i].1)))
  }

  /** Each production of `Encoded`, in terms of the helpers above. */
  lemma EncodedUnfold(v: Value)
    ensures v.Arr? && IsSequential(v.entries) ==> Encoded(v) == ListToken(EncodedValues(ValuesOf(v.entries)))
    ensures v.Arr? && !IsSequential(v.entries) ==> Encoded(v) == DictToken(EncodedRows(v.entries))
    ensures v.ListOf? ==> Encoded(v) == ListToken(EncodedValues(v.items))
    ensures v.Traversable? ==> Encoded(v) == DictToken(EncodedRows(v.pairs))
    ensures v.StdClass? ==> Encoded(v) == DictToken(EncodedRows(ObjectToArray(v.props)))
  {
    if v.Arr? && IsSequential(v.entries) {
      var entries := v.entries;
      assert EncodedValues(ValuesOf(entries))
        == seq(|entries|, i requires 0 <= i < |entries| => Encoded(entries[i].1));
    }
  }

  /** The list production of a ListType, on its own. */
  lemma ListOfUnfold(items: seq<Value>)
    ensures Encoded(ListOf(items)) == ListToken(EncodedValues(items))
  {
  }

  /** The dictionary production of a Traversable, on its own. */
  lemma TraversableUnfold(pairs: seq<(Key, Value)>)
    ensures Encoded(Traversable(pairs)) == DictToken(EncodedRows(pairs))
  {
  }

  /**
   * Every value gets exactly one production, and the first byte of the output
   * says which: `i` for an int; `l` for a ListType object or an array whose keys
   * are 0..n-1; `d` for any other array, any other Traversable and a stdClass;
   * a digit (the string length) for everything else. Every production but the
   * byte string ends with `e`.
   */
  lemma EncodedProduction(v: Value)
    ensures Encoded(v) != []
    ensures Encoded(v)[0] == LowerI <==> IsInt(v)
    ensures Encoded(v)[0] == LowerL <==> IsListType(v) || (IsArray(v) && IsSequential(v.entries))
    ensures Encoded(v)[0] == LowerD <==>
      (IsTraversable(v) && !IsListType(v)) || IsStdClass(v) || (IsArray(v) && !IsSequential(v.entries))
    ensures IsDigit(Encoded(v)[0]) <==> !IsInt(v) && !IsArray(v) && !IsTraversable(v) && !IsStdClass(v)
    ensures !IsDigit(Encoded(v)[0]) ==> Encoded(v)[|Encoded(v)| - 1] == LowerE
  {
    if v.Str? || v.Scalar? {
      var s := StringOf(v);
      var r := EncodeString(s);
      assert r[0] == r[..|r| - |s| - 1][0];
    }
  }

  /** An array whose keys are 0..n-1 in order is written exactly as the list of its values. */
  lemma SequentialArrayAsList(entries: seq<(Key, Value)>)
    requires IsSequential(entries)
    ensures Encoded(Arr(entries)) == Encoded(ListOf(ValuesOf(entries)))
  {
    EncodedUnfold(Arr(entries));
    EncodedUnfold(ListOf(ValuesOf(entries)));
  }

  /** The empty array has no key that breaks the sequence 0..n-1, so it is an empty list. */
  lemma EmptyContainers()
    ensures Encoded(Arr([])) == Ascii("le")
    ensures Encoded(ListOf([])) == Ascii("le")
    ensures Encoded(Traversable([])) == Ascii("de")
    ensures Encoded(StdClass([])) == Ascii("de")
  {
    assert Ascii("le") == [LowerL, LowerE];
    assert Ascii("de") == [LowerD, LowerE];
    EncodedUnfold(Arr([]));
    EncodedUnfold(Traversable([]));
    EncodedUnfold(StdClass([]));
  }

  /**
   * The order in which key => value pairs arrive does not matter: any
   * rearrangement of pairs whose keys are distinct after `strval` gives the same
   * dictionary text.
   */
  lemma DictionaryOrderIrrelevant(p: seq<(Key, Value)>, q: seq<(Key, Value)>)
    requires multiset(p) == multiset(q)
    requires DistinctKeys(StrvalRows(p))
    ensures Encoded(Traversable(p)) == Encoded(Traversable(q))
    ensures !IsSequential(p) && !IsSequential(q) ==> Encoded(Arr(p)) == Encoded(Arr(q))
  {
    DictRowsOrderIrrelevant(p, q);
    EncodedUnfold(Traversable(p));
    EncodedUnfold(Traversable(q));
    EncodedUnfold(Arr(p));
    EncodedUnfold(Arr(q));
  }

  /**
   * The same holds for a stdClass: rearranging properties with distinct names
   * does not change the text.
   */
  lemma PropertyOrderIrrelevant(p: seq<(bytes, Value)>, q: seq<(bytes, Value)>)
    requires multiset(p) == multiset(q)
    requires DistinctKeys(p)
    ensures Encoded(StdClass(p)) == Encoded(StdClass(q))
  {
    StdClassAsDictionary(p);
    StdClassAsDictionary(q);
    SortByKeyMapValues(Encoded, p);
    SortByKeyMapValues(Encoded, q);
    SortByKeyPermutationInvariant(p, q);
  }

  lemma DictRowsOrderIrrelevant(p: seq<(Key, Value)>, q: seq<(Key, Value)>)
    requires multiset(p) == multiset(q)
    requires DistinctKeys(StrvalRows(p))
    ensures DictToken(EncodedRows(p)) == DictToken(EncodedRows(q))
  {
    var row := (kv: (Key, Value)) => (Strval(kv.0), kv.1);
    assert StrvalRows(p) == Apply(row, p) && StrvalRows(q) == Apply(row, q);
    ApplyPermutation(row, p, q);
    SortByKeyPermutationInvariant(StrvalRows(p), StrvalRows(q));
    SortedThenEncoded(p);
    SortedThenEncoded(q);
  }

  /** Sorting the `strval` rows and then encoding their values gives the sorted encoded rows. */
  lemma SortedThenEncoded(pairs: seq<(Key, Value)>)
    ensures [LowerD] + Concat(RowTokens(MapValues(Encoded, SortByKey(StrvalRows(pairs))))) + [LowerE]
         == DictToken(EncodedRows(pairs))
  {
    SortByKeyMapValues(Encoded, StrvalRows(pairs));
    assert MapValues(Encoded, StrvalRows(pairs)) == EncodedRows(pairs);
  }

  /**
   * A stdClass is written as the dictionary of its property names to their
   * values. The names go through the array cast, where numeric names become
   * integer keys, and come back unchanged through `strval`.
   */
  lemma StdClassAsDictionary(props: seq<(bytes, Value)>)
    ensures Encoded(StdClass(props)) == DictToken(MapValues(Encoded, props))
  {
    EncodedUnfold(StdClass(props));
    assert EncodedRows(ObjectToArray(props)) == MapValues(Encoded, props);
  }
}
