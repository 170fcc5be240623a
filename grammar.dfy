/**
 * The wire grammar of Bencode (the "bencoding" section of BEP 3, the BitTorrent
 * Protocol Specification) as a reference for the encoder's output:
 *
 *   value      := integer | bytestring | list | dict
 *   integer    := 'i' ['-'] digit+ 'e'
 *   bytestring := digit+ ':' <that many bytes>
 *   list       := 'l' value* 'e'
 *   dict       := 'd' (bytestring value)* 'e'
 *
 * `BValue` is a value of the format, `Serialize` writes one, and `Decode` reads
 * one back. `Canonical` is the Bencode value the encoder makes of a PHP value;
 * the lemmas show that the encoder's output is `Serialize(Canonical(v))`, that
 * it decodes back to `Canonical(v)`, and that its dictionaries are in key order.
 */
module Grammar {
  import opened Bytes
  import opened KeySort
  import opened Values
  import opened Bencode

  /** A Bencode value: integer, byte string, list, or dictionary rows in written order. */
  datatype BValue =
    | BInt(n: int)
    | BStr(s: bytes)
    | BList(items: seq<BValue>)
    | BDict(rows: seq<(bytes, BValue)>)

  /** The text of a Bencode value; dictionary rows are written in the order given. */
  function Serialize(b: BValue): bytes
    decreases b
  {
    match b
    case BInt(n) => EncodeInteger(n)
    case BStr(s) => EncodeString(s)
    case BList(items) =>
      ListToken(seq(|items|, i requires 0 <= i < |items| => Serialize(items[i])))
    case BDict(rows) =>
      [LowerD] + Concat(seq(|rows|, i requires 0 <= i < |rows| => EncodeString(rows[i].0) + Serialize(rows[i].1))) + [LowerE]
  }

  /**
   * The Bencode value the encoder makes of a PHP value: the same choice of
   * production as `encodeValue`, dictionary keys through `strval` and the rows
   * sorted by key with `strcmp`.
   */
  function Canonical(v: Value): BValue
    decreases v
  {
    match v
    case Int(n) => BInt(n)
    case Arr(entries) =>
      if IsSequential(entries) then
        BList(seq(|entries|, i requires 0 <= i < |entries| => Canonical(entries[i].1)))
      else
        BDict(SortByKey(seq(|entries|, i requires 0 <= i < |entries| => (Strval(entries[i].0), Canonical(entries[i].1)))))
    case ListOf(items) =>
      BList(seq(|items|, i requires 0 <= i < |items| => Canonical(items[i])))
    case Traversable(pairs) =>
      BDict(SortByKey(seq(|pairs|, i requires 0 <= i < |pairs| => (Strval(pairs[i].0), Canonical(pairs[i].1)))))
    case StdClass(props) =>
      var entries := ObjectToArray(props);
      BDict(SortByKey(seq(|entries|, i requires 0 <= i < |entries| => (Strval(entries[i].0), Canonical(entries[i].1)))))
    case Str(s) => BStr(s)
    case Scalar(text) => BStr(text)
  }

  lemma SerializeUnfold(b: BValue)
    ensures b.BList? ==> Serialize(b) == ListToken(Apply(Serialize, b.items))
    ensures b.BDict? ==> Serialize(b) == [LowerD] + Concat(RowTokens(MapValues(Serialize, b.rows))) + [LowerE]
  {
    if b.BList? {
      var items := b.items;
      assert Apply(Serialize, items) == seq(|items|, i requires 0 <= i < |items| => Serialize(items[i]));
    }
    if b.BDict? {
      var rows := b.rows;
      assert RowTokens(MapValues(Serialize, rows))
        == seq(|rows|, i requires 0 <= i < |rows| => EncodeString(rows[i].0) + Serialize(rows[i].1));
    }
  }

  /** The list case of `EncodedIsSerializedCanonical`. */
  lemma ListCase(items: seq<Value>)
    requires forall i :: 0 <= i < |items| ==> Encoded(items[i]) == Serialize(Canonical(items[i]))
    ensures ListToken(EncodedValues(items))
         == Serialize(BList(seq(|items|, i requires 0 <= i < |items| => Canonical(items[i]))))
  {
    var canon := seq(|items|, i requires 0 <= i < |items| => Canonical(items[i]));
    SerializeUnfold(BList(canon));
    assert Apply(Serialize, canon) == EncodedValues(items);
  }

  /** The dictionary case of `EncodedIsSerializedCanonical`. */
  lemma DictCase(pairs: seq<(Key, Value)>)
    requires forall i :: 0 <= i < |pairs| ==> Encoded(pairs[i].1) == Serialize(Canonical(pairs[i].1))
    ensures DictToken(EncodedRows(pairs))
         == Serialize(BDict(SortByKey(seq(|pairs|, i requires 0 <= i < |pairs| => (Strval(pairs[i].0), Canonical(pairs[i].1))))))
  {
    var rows := seq(|pairs|, i requires 0 <= i < |pairs| => (Strval(pairs[i].0), Canonical(pairs[i].1)));
    SerializeUnfold(BDict(SortByKey(rows)));
    SortByKeyMapValues(Serialize, rows);
    assert MapValues(Serialize, rows) == EncodedRows(pairs);
  }

  lemma SequentialArrCase(entries: seq<(Key, Value)>)
    requires forall i :: 0 <= i < |entries| ==> Encoded(entries[i].1) == Serialize(Canonical(entries[i].1))
    ensures ListToken(EncodedValues(ValuesOf(entries)))
         == Serialize(BList(seq(|entries|, i requires 0 <= i < |entries| => Canonical(entries[i].1))))
  {
    var items := ValuesOf(entries);
    ListCase(items);
    assert seq(|items|, i requires 0 <= i < |items| => Canonical(items[i]))
        == seq(|entries|, i requires 0 <= i < |entries| => Canonical(entries[i].1));
  }

  lemma ArrCase(entries: seq<(Key, Value)>)
    requires forall i :: 0 <= i < |entries| ==> Encoded(entries[i].1) == Serialize(Canonical(entries[i].1))
    ensures Encoded(Arr(entries)) == Serialize(Canonical(Arr(entries)))
  {
    EncodedUnfold(Arr(entries));
    if IsSequential(entries) {
      SequentialArrCase(entries);
    } else {
      DictCase(entries);
    }
  }

  lemma ListOfCase(items: seq<Value>)
    requires forall i :: 0 <= i < |items| ==> Encoded(items[i]) == Serialize(Canonical(items[i]))
    ensures Encoded(ListOf(items)) == Serialize(Canonical(ListOf(items)))
  {
    EncodedUnfold(ListOf(items));
    ListCase(items);
  }

  lemma TraversableCase(pairs: seq<(Key, Value)>)
    requires forall i :: 0 <= i < |pairs| ==> Encoded(pairs[i].1) == Serialize(Canonical(pairs[i].1))
    ensures Encoded(Traversable(pairs)) == Serialize(Canonical(Traversable(pairs)))
  {
    EncodedUnfold(Traversable(pairs));
    DictCase(pairs);
  }

  lemma StdClassCase(props: seq<(bytes, Value)>)
    requires forall i :: 0 <= i < |props| ==> Encoded(props[i].1) == Serialize(Canonical(props[i].1))
    ensures Encoded(StdClass(props)) == Serialize(Canonical(StdClass(props)))
  {
    EncodedUnfold(StdClass(props));
    DictCase(ObjectToArray(props));
  }

  /**
   * The encoder writes the canonical Bencode value of its input with the plain
   * grammar: the PHP-specific decisions are all in `Canonical`.
   */
  lemma {:induction false} EncodedIsSerializedCanonical(v: Value)
    ensures Encoded(v) == Serialize(Canonical(v))
    decreases v
  {
    match v
    case Int(_) =>
    case Str(_) =>
    case Scalar(_) =>
    case Arr(entries) =>
      forall i | 0 <= i < |entries|
        ensures Encoded(entries[i].1) == Serialize(Canonical(entries[i].1))
      {
        EncodedIsSerializedCanonical(entries[i].1);
      }
      ArrCase(entries);
    case ListOf(items) =>
      forall i | 0 <= i < |items|
        ensures Encoded(items[i]) == Serialize(Canonical(items[i]))
      {
        EncodedIsSerializedCanonical(items[i]);
      }
      ListOfCase(items);
    case Traversable(pairs) =>
      forall i | 0 <= i < |pairs|
        ensures Encoded(pairs[i].1) == Serialize(Canonical(pairs[i].1))
      {
        EncodedIsSerializedCanonical(pairs[i].1);
      }
      TraversableCase(pairs);
    case StdClass(props) =>
      forall i | 0 <= i < |props|
        ensures Encoded(props[i].1) == Serialize(Canonical(props[i].1))
      {
        EncodedIsSerializedCanonical(props[i].1);
      }
      StdClassCase(props);
  }

  // ---------------------------------------------------------------------------
  // Key order

  /** Every dictionary, at every depth, has its keys strictly ascending in `strcmp` order. */
  ghost predicate InKeyOrder(b: BValue)
    decreases b
  {
    match b
    case BInt(_) => true
    case BStr(_) => true
    case BList(items) => forall i :: 0 <= i < |items| ==> InKeyOrder(items[i])
    case BDict(rows) =>
      && (forall i, j :: 0 <= i < j < |rows| ==> Below(rows[i].0, rows[j].0))
      && (forall i :: 0 <= i < |rows| ==> InKeyOrder(rows[i].1))
  }

  /**
   * No container that becomes a dictionary yields two keys with the same
   * `strval`, at any depth. PHP guarantees this for arrays (keys are unique, and
   * a decimal string key is stored as the integer) and for object properties;
   * a Traversable may yield any keys.
   */
  ghost predicate KeysDistinct(v: Value)
    decreases v
  {
    match v
    case Int(_) => true
    case Str(_) => true
    case Scalar(_) => true
    case Arr(entries) =>
      && (IsSequential(entries) || DistinctKeys(StrvalRows(entries)))
      && (forall i :: 0 <= i < |entries| ==> KeysDistinct(entries[i].1))
    case ListOf(items) => forall i :: 0 <= i < |items| ==> KeysDistinct(items[i])
    case Traversable(pairs) =>
      && DistinctKeys(StrvalRows(pairs))
      && (forall i :: 0 <= i < |pairs| ==> KeysDistinct(pairs[i].1))
    case StdClass(props) =>
      && DistinctKeys(props)
      && (forall i :: 0 <= i < |props| ==> KeysDistinct(props[i].1))
  }

  /** The dictionary case of `CanonicalInKeyOrder`: sorting rows with distinct keys orders them strictly. */
  lemma DictInKeyOrder(pairs: seq<(Key, Value)>)
    requires DistinctKeys(StrvalRows(pairs))
    requires forall i :: 0 <= i < |pairs| ==> InKeyOrder(Canonical(pairs[i].1))
    ensures InKeyOrder(BDict(SortByKey(seq(|pairs|, i requires 0 <= i < |pairs| => (Strval(pairs[i].0), Canonical(pairs[i].1))))))
  {
    var rows := seq(|pairs|, i requires 0 <= i < |pairs| => (Strval(pairs[i].0), Canonical(pairs[i].1)));
    var sorted := SortByKey(rows);
    assert DistinctKeys(rows) by {
      forall i, j | 0 <= i < j < |rows|
        ensures rows[i].0 != rows[j].0
      {
        assert rows[i].0 == StrvalRows(pairs)[i].0 && rows[j].0 == StrvalRows(pairs)[j].0;
      }
    }
    SortByKeySorted(rows);
    DistinctKeysPermutation(rows, sorted);
    forall i, j | 0 <= i < j < |sorted|
      ensures Below(sorted[i].0, sorted[j].0)
    {
      SortedDistinctStrict(sorted, i, j);
    }
    forall k | 0 <= k < |sorted|
      ensures InKeyOrder(sorted[k].1)
    {
      assert sorted[k] in multiset(rows);
      var m :| 0 <= m < |rows| && rows[m] == sorted[k];
    }
  }

  /** Property names come back unchanged through the array cast and `strval`. */
  lemma ObjectRowsKeepNames(props: seq<(bytes, Value)>)
    requires DistinctKeys(props)
    ensures DistinctKeys(StrvalRows(ObjectToArray(props)))
  {
    var rows := StrvalRows(ObjectToArray(props));
    forall i | 0 <= i < |props|
      ensures rows[i].0 == props[i].0
    {
      assert ObjectToArray(props)[i].0 == ArrayKey(props[i].0);
    }
  }

  /**
   * When no container yields a key twice, every dictionary the encoder writes
   * has its keys strictly ascending: the order `strcmp` gives, with no ties.
   */
  lemma {:induction false} CanonicalInKeyOrder(v: Value)
    requires KeysDistinct(v)
    ensures InKeyOrder(Canonical(v))
    decreases v
  {
    match v
    case Int(_) =>
    case Str(_) =>
    case Scalar(_) =>
    case Arr(entries) =>
      forall i | 0 <= i < |entries|
        ensures InKeyOrder(Canonical(entries[i].1))
      {
        CanonicalInKeyOrder(entries[i].1);
      }
      if !IsSequential(entries) {
        DictInKeyOrder(entries);
      }
    case ListOf(items) =>
      forall i | 0 <= i < |items|
        ensures InKeyOrder(Canonical(items[i]))
      {
        CanonicalInKeyOrder(items[i]);
      }
    case Traversable(pairs) =>
      forall i | 0 <= i < |pairs|
        ensures InKeyOrder(Canonical(pairs[i].1))
      {
        CanonicalInKeyOrder(pairs[i].1);
      }
      DictInKeyOrder(pairs);
    case StdClass(props) =>
      var entries := ObjectToArray(props);
      forall i | 0 <= i < |entries|
        ensures InKeyOrder(Canonical(entries[i].1))
      {
        CanonicalInKeyOrder(props[i].1);
      }
      ObjectRowsKeepNames(props);
      DictInKeyOrder(entries);
  }
}
