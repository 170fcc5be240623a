/**
 * `Encoder`: holds the value given to its constructor and turns it into Bencode
 * text on `encode()`. The private helpers are methods that build their output
 * step by step, as the PHP class does, and each is proved to produce what the
 * functions of module `Bencode` specify.
 */
module Engine {
  import opened Bytes
  import opened KeySort
  import opened Values
  import opened Bencode

  class Encoder {
    /** The value to encode, stored by the constructor. */
    var data: Value

    /** `__construct($data, array $options = [])`; the options have no effect and are not modelled. */
    constructor (data: Value)
      ensures this.data == data
    {
      this.data := data;
    }

    /** `encode()`: the Bencode text of the stored value (it changes nothing). */
    method Encode() returns (r: bytes)
      ensures r == Encoded(data)
    {
      r := EncodeValue(data);
    }

    /** `encodeValue`: the type tests in order, the first that matches decides. */
    method EncodeValue(value: Value) returns (r: bytes)
      ensures r == Encoded(value)
      decreases value, 1
    {
      EncodedUnfold(value);
      if IsInt(value) {
        return EncodeInteger(value.n);
      }
      if IsArray(value) {
        var sequential := IsSequentialArray(value.entries);
        if sequential {
          r := EncodeList(ValuesOf(value.entries), value);
        } else {
          r := EncodeDictionary(value.entries, value);
        }
        return;
      }
      if IsListType(value) {
        r := EncodeList(value.items, value);
        return;
      }
      if IsTraversable(value) {
        r := EncodeDictionary(value.pairs, value);
        return;
      }
      if IsStdClass(value) {
        r := EncodeDictionary(ObjectToArray(value.props), value);
        return;
      }
      r := EncodeString(StringOf(value));
    }

    /**
     * `encodeList`: encodes each element in iteration order, appending to
     * `$listData`, then joins them between `l` and `e`. `owner` is the value
     * the elements come from; it only bounds the recursion.
     */
    method EncodeList(items: seq<Value>, ghost owner: Value) returns (r: bytes)
      requires forall i :: 0 <= i < |items| ==> items[i] < owner
      ensures r == ListToken(EncodedValues(items))
      decreases owner, 0
    {
      var listData: seq<bytes> := [];
      for i := 0 to |items|
        invariant listData == EncodedValues(items[..i])
      {
        var encoded := EncodeValue(items[i]);
        EncodedValuesSnoc(items, i);
        listData := listData + [encoded];
      }
      assert items[..|items|] == items;
      r := [LowerL] + Concat(listData) + [LowerE];
    }

    /**
     * `encodeDictionary`: collects `[strval($key), $value]` rows, sorts them with
     * `usort` on `strcmp` of the keys, then writes each key as a byte string
     * followed by the encoding of its value, between `d` and `e`.
     */
    method EncodeDictionary(pairs: seq<(Key, Value)>, ghost owner: Value) returns (r: bytes)
      requires forall i :: 0 <= i < |pairs| ==> pairs[i].1 < owner
      ensures r == DictToken(EncodedRows(pairs))
      decreases owner, 0
    {
      var dictData: seq<(bytes, Value)> := [];
      for i := 0 to |pairs|
        invariant dictData == StrvalRows(pairs[..i])
      {
        StrvalRowsSnoc(pairs, i);
        dictData := dictData + [(Strval(pairs[i].0), pairs[i].1)];
      }
      assert pairs[..|pairs|] == pairs;
      ghost var rows := dictData;

      dictData := UsortByKey(dictData);
      SortedValuesBelow(rows, owner);

      var parts: seq<bytes> := [];
      for j := 0 to |dictData|
        invariant parts == RowTokens(MapValues(Encoded, dictData[..j]))
      {
        var (key, value) := dictData[j];
        var encodedValue := EncodeValue(value);
        EncodedRowTokensSnoc(dictData, j);
        parts := parts + [EncodeString(key) + encodedValue];
      }
      r := [LowerD] + Concat(parts) + [LowerE];
      assert dictData[..|dictData|] == dictData;
      SortedThenEncoded(pairs);
    }

    /**
     * `isSequentialArray`: walks the array with a counter that starts at 0 and
     * answers false at the first key that is not identical to the counter.
     */
    method IsSequentialArray(entries: seq<(Key, Value)>) returns (b: bool)
      ensures b <==> IsSequential(entries)
    {
      var index := 0;
      for n := 0 to |entries|
        invariant index == n
        invariant forall k :: 0 <= k < n ==> entries[k].0 == IntKey(k)
      {
        var key := entries[n].0;
        if key != IntKey(index) {
          return false;
        }
        index := index + 1;
      }
      return true;
    }
  }

  // Proof step of `Encoder.EncodeList`.

  lemma EncodedValuesSnoc(items: seq<Value>, i: int)
    requires 0 <= i < |items|
    ensures EncodedValues(items[..i + 1]) == EncodedValues(items[..i]) + [Encoded(items[i])]
  {
  }

  // Proof steps of `Encoder.EncodeDictionary`.

  lemma StrvalRowsSnoc(pairs: seq<(Key, Value)>, i: int)
    requires 0 <= i < |pairs|
    ensures StrvalRows(pairs[..i + 1]) == StrvalRows(pairs[..i]) + [(Strval(pairs[i].0), pairs[i].1)]
  {
  }

  lemma EncodedRowTokensSnoc(rows: seq<(bytes, Value)>, j: int)
    requires 0 <= j < |rows|
    ensures RowTokens(MapValues(Encoded, rows[..j + 1]))
         == RowTokens(MapValues(Encoded, rows[..j])) + [EncodeString(rows[j].0) + Encoded(rows[j].1)]
  {
  }

  /** Sorting keeps every row, so the values stay below the value they came from. */
  lemma SortedValuesBelow(rows: seq<(bytes, Value)>, owner: Value)
    requires forall i :: 0 <= i < |rows| ==> rows[i].1 < owner
    ensures forall k :: 0 <= k < |SortByKey(rows)| ==> SortByKey(rows)[k].1 < owner
  {
    var sorted := SortByKey(rows);
    forall k | 0 <= k < |sorted|
      ensures sorted[k].1 < owner
    {
      assert sorted[k] in multiset(rows);
    }
  }
}
