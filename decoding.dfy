/**
 * A reader for the Bencode grammar, used as the inverse of the encoder: every
 * text the encoder writes reads back as the canonical Bencode value of its
 * input, so the encoding is well formed, self-delimiting, and loses nothing
 * beyond what `Canonical` drops.
 *
 * The reader accepts canonical text only (integers without leading zeros or
 * "-0", string lengths without leading zeros); the encoder writes no other.
 */
module Decoding {
  import opened Bytes
  import opened KeySort
  import opened Values
  import opened Bencode
  import opened Grammar

  datatype Option<T> = None | Some(value: T)

  /** The position of the first `b` in `s`, or `|s|` when there is none. */
  function IndexOf(s: bytes, b: byte): (k: nat)
    ensures k <= |s|
    ensures k < |s| ==> s[k] == b
    ensures forall i :: 0 <= i < k ==> s[i] != b
  {
    if s == [] then 0 else if s[0] == b then 0 else 1 + IndexOf(s[1..], b)
  }

  /** The rest of an integer after its `i`: the integer text up to the first `e`. */
  function ParseInteger(s: bytes): (r: Option<(BValue, bytes)>)
    ensures r.Some? ==> |r.value.1| < |s| && r.value.0.BInt?
  {
    var k := IndexOf(s, LowerE);
    if k < |s| && IsIntText(s[..k]) then Some((BInt(IntTextValue(s[..k])), s[k + 1..])) else None
  }

  /** A byte string: its length up to the colon, then that many bytes. */
  function ParseString(s: bytes): (r: Option<(bytes, bytes)>)
    ensures r.Some? ==> |r.value.1| < |s|
  {
    var k := IndexOf(s, Colon);
    if k < |s| && IsNatText(s[..k]) && k + 1 + DigitsValue(s[..k]) <= |s| then
      var n := DigitsValue(s[..k]);
      Some((s[k + 1..k + 1 + n], s[k + 1 + n..]))
    else
      None
  }

  /** One value at the front of `s`, and what follows it. */
  function ParseValue(s: bytes): (r: Option<(BValue, bytes)>)
    ensures r.Some? ==> |r.value.1| < |s|
    decreases |s|, 0
  {
    if s == [] then None
    else if s[0] == LowerI then ParseInteger(s[1..])
    else if s[0] == LowerL then
      match ParseItems(s[1..])
      case None => None
      case Some((items, rest)) => Some((BList(items), rest))
    else if s[0] == LowerD then
      match ParseRows(s[1..])
      case None => None
      case Some((rows, rest)) => Some((BDict(rows), rest))
    else
      match ParseString(s)
      case None => None
      case Some((str, rest)) => Some((BStr(str), rest))
  }

  /** The elements of a list up to and including its closing `e`. */
  function ParseItems(s: bytes): (r: Option<(seq<BValue>, bytes)>)
    ensures r.Some? ==> |r.value.1| < |s|
    decreases |s|, 1
  {
    if s == [] then None
    else if s[0] == LowerE then Some(([], s[1..]))
    else
      match ParseValue(s)
      case None => None
      case Some((x, after)) =>
        match ParseItems(after)
        case None => None
        case Some((xs, rest)) => Some(([x] + xs, rest))
  }

  /** The key => value rows of a dictionary up to and including its closing `e`. */
  function ParseRows(s: bytes): (r: Option<(seq<(bytes, BValue)>, bytes)>)
    ensures r.Some? ==> |r.value.1| < |s|
    decreases |s|, 1
  {
    if s == [] then None
    else if s[0] == LowerE then Some(([], s[1..]))
    else
      match ParseString(s)
      case None => None
      case Some((key, afterKey)) =>
        match ParseValue(afterKey)
        case None => None
        case Some((x, after)) =>
          match ParseRows(after)
          case None => None
          case Some((rows, rest)) => Some(([(key, x)] + rows, rest))
  }

  /** A whole text that is exactly one value. */
  function Decode(s: bytes): Option<BValue> {
    match ParseValue(s)
    case None => None
    case Some((b, rest)) => if rest == [] then Some(b) else None
  }

  // ---------------------------------------------------------------------------
  // Round trip

  /** `Concat` read from the front: the first piece, then the others. */
  lemma {:induction false} ConcatFront(parts: seq<bytes>)
    requires parts != []
    ensures Concat(parts) == parts[0] + Concat(parts[1..])
  {
    if |parts| > 1 {
      var init := parts[..|parts| - 1];
      ConcatFront(init);
      assert init[1..] == parts[1..][..|parts[1..]| - 1];
    }
  }

  /** The same, with a closing `e` and whatever follows appended. */
  lemma ConcatFrontClosed(parts: seq<bytes>, rest: bytes)
    requires parts != []
    ensures Concat(parts) + [LowerE] + rest == parts[0] + (Concat(parts[1..]) + [LowerE] + rest)
  {
    ConcatFront(parts);
  }

  lemma AppendAssoc(a: bytes, b: bytes, c: bytes)
    ensures (a + b) + c == a + (b + c)
  {
  }

  lemma IndexOfFirst(t: bytes, b: byte, rest: bytes)
    requires forall i :: 0 <= i < |t| ==> t[i] != b
    ensures IndexOf(t + [b] + rest, b) == |t|
  {
    var s := t + [b] + rest;
    assert s[|t|] == b;
  }

  /** The text of an integer (between `i` and `e`) never holds an `e`. */
  lemma ParseIntegerRoundTrip(n: int, rest: bytes)
    ensures ParseInteger(IntToDecimal(n) + [LowerE] + rest) == Some((BInt(n), rest))
  {
    var t := IntToDecimal(n);
    var s := t + [LowerE] + rest;
    assert forall i :: 0 <= i < |t| ==> t[i] == Minus || IsDigit(t[i]);
    IndexOfFirst(t, LowerE, rest);
    assert s[..|t|] == t && s[|t| + 1..] == rest;
    IntToDecimalValue(n);
  }

  /** The length of a byte string is all digits, so the first colon ends it. */
  lemma ParseStringRoundTrip(str: bytes, rest: bytes)
    ensures ParseString(EncodeString(str) + rest) == Some((str, rest))
  {
    var len := NatDigits(|str|);
    var s := EncodeString(str) + rest;
    assert s == len + [Colon] + (str + rest);
    IndexOfFirst(len, Colon, str + rest);
    assert s[..|len|] == len;
    NatDigitsValue(|str|);
    assert s[|len| + 1..|len| + 1 + |str|] == str;
    assert s[|len| + 1 + |str|..] == rest;
  }

  /** A written value never starts with the `e` that closes a list or a dictionary. */
  lemma SerializeFirstByte(b: BValue)
    ensures Serialize(b) != [] && Serialize(b)[0] != LowerE
  {
    if b.BStr? {
      var r := EncodeString(b.s);
      assert r[0] == r[..|r| - |b.s| - 1][0];
    }
  }

  /** A list element that is not the closing `e`, followed by the other elements. */
  lemma ParseItemsStep(s: bytes, x: BValue, after: bytes)
    requires s != [] && s[0] != LowerE && ParseValue(s) == Some((x, after))
    ensures ParseItems(s) == match ParseItems(after)
                             case None => None
                             case Some((xs, rest)) => Some(([x] + xs, rest))
  {
  }

  /** A dictionary row: a key that does not start with `e`, its value, then the other rows. */
  lemma ParseRowsStep(s: bytes, key: bytes, afterKey: bytes, x: BValue, after: bytes)
    requires s != [] && s[0] != LowerE
    requires ParseString(s) == Some((key, afterKey)) && ParseValue(afterKey) == Some((x, after))
    ensures ParseRows(s) == match ParseRows(after)
                            case None => None
                            case Some((rows, rest)) => Some(([(key, x)] + rows, rest))
  {
  }

  /** Each element of `items` reads back from its text, whatever follows. */
  ghost predicate ItemsRoundTrip(items: seq<BValue>) {
    forall i, r :: 0 <= i < |items| ==> ParseValue(Serialize(items[i]) + r) == Some((items[i], r))
  }

  lemma ItemsTextFront(items: seq<BValue>, rest: bytes)
    requires items != []
    ensures Concat(Apply(Serialize, items)) + [LowerE] + rest
         == Serialize(items[0]) + (Concat(Apply(Serialize, items[1..])) + [LowerE] + rest)
  {
    var parts := Apply(Serialize, items);
    ConcatFrontClosed(parts, rest);
    assert parts[1..] == Apply(Serialize, items[1..]);
  }

  lemma ItemsRoundTripTail(items: seq<BValue>)
    requires items != [] && ItemsRoundTrip(items)
    ensures ItemsRoundTrip(items[1..])
  {
    var tail := items[1..];
    forall i, r | 0 <= i < |tail|
      ensures ParseValue(Serialize(tail[i]) + r) == Some((tail[i], r))
    {
      assert tail[i] == items[i + 1];
    }
  }

  /** The first element of a written list body reads back, ahead of the other elements. */
  lemma ParseItemsHead(items: seq<BValue>, rest: bytes)
    requires items != [] && ItemsRoundTrip(items)
    ensures ParseItems(Concat(Apply(Serialize, items)) + [LowerE] + rest)
         == match ParseItems(Concat(Apply(Serialize, items[1..])) + [LowerE] + rest)
            case None => None
            case Some((tail, rest')) => Some(([items[0]] + tail, rest'))
  {
    var after := Concat(Apply(Serialize, items[1..])) + [LowerE] + rest;
    ItemsTextFront(items, rest);
    SerializeFirstByte(items[0]);
    assert ParseValue(Serialize(items[0]) + after) == Some((items[0], after));
    ParseItemsStep(Serialize(items[0]) + after, items[0], after);
  }

  lemma {:induction false} ParseItemsRoundTrip(items: seq<BValue>, rest: bytes)
    requires ItemsRoundTrip(items)
    ensures ParseItems(Concat(Apply(Serialize, items)) + [LowerE] + rest) == Some((items, rest))
  {
    if items == [] {
      assert Concat(Apply(Serialize, items)) + [LowerE] + rest == [LowerE] + rest;
    } else {
      ParseItemsHead(items, rest);
      ItemsRoundTripTail(items);
      ParseItemsRoundTrip(items[1..], rest);
      assert [items[0]] + items[1..] == items;
    }
  }

  /** Each value of `rows` reads back from its text, whatever follows. */
  ghost predicate RowsRoundTrip(rows: seq<(bytes, BValue)>) {
    forall i, r :: 0 <= i < |rows| ==> ParseValue(Serialize(rows[i].1) + r) == Some((rows[i].1, r))
  }

  lemma RowsTextFront(rows: seq<(bytes, BValue)>, rest: bytes)
    requires rows != []
    ensures Concat(RowTokens(MapValues(Serialize, rows))) + [LowerE] + rest
         == EncodeString(rows[0].0) + (Serialize(rows[0].1) + (Concat(RowTokens(MapValues(Serialize, rows[1..]))) + [LowerE] + rest))
  {
    var parts := RowTokens(MapValues(Serialize, rows));
    ConcatFrontClosed(parts, rest);
    assert parts[1..] == RowTokens(MapValues(Serialize, rows[1..]));
    assert parts[0] == EncodeString(rows[0].0) + Serialize(rows[0].1);
    AppendAssoc(EncodeString(rows[0].0), Serialize(rows[0].1), Concat(parts[1..]) + [LowerE] + rest);
  }

  lemma RowsRoundTripTail(rows: seq<(bytes, BValue)>)
    requires rows != [] && RowsRoundTrip(rows)
    ensures RowsRoundTrip(rows[1..])
  {
    var tail := rows[1..];
    forall i, r | 0 <= i < |tail|
      ensures ParseValue(Serialize(tail[i].1) + r) == Some((tail[i].1, r))
    {
      assert tail[i] == rows[i + 1];
    }
  }

  /** A byte string never starts with `e`: its length comes first. */
  lemma EncodeStringFirstByte(s: bytes)
    ensures EncodeString(s)[0] != LowerE
  {
    var e := EncodeString(s);
    assert e[0] == e[..|e| - |s| - 1][0];
  }

  /** A row written as a key's byte string followed by a value that reads back. */
  lemma ParseRowsFirst(key: bytes, x: BValue, after: bytes)
    requires ParseValue(Serialize(x) + after) == Some((x, after))
    ensures ParseRows(EncodeString(key) + (Serialize(x) + after))
         == match ParseRows(after)
            case None => None
            case Some((tail, rest')) => Some(([(key, x)] + tail, rest'))
  {
    var afterKey := Serialize(x) + after;
    EncodeStringFirstByte(key);
    ParseStringRoundTrip(key, afterKey);
    ParseRowsStep(EncodeString(key) + afterKey, key, afterKey, x, after);
  }

  /** The first row of a written dictionary body reads back, ahead of the other rows. */
  lemma ParseRowsHead(rows: seq<(bytes, BValue)>, rest: bytes)
    requires rows != [] && RowsRoundTrip(rows)
    ensures ParseRows(Concat(RowTokens(MapValues(Serialize, rows))) + [LowerE] + rest)
         == match ParseRows(Concat(RowTokens(MapValues(Serialize, rows[1..]))) + [LowerE] + rest)
            case None => None
            case Some((tail, rest')) => Some(([rows[0]] + tail, rest'))
  {
    var after := Concat(RowTokens(MapValues(Serialize, rows[1..]))) + [LowerE] + rest;
    RowsTextFront(rows, rest);
    assert ParseValue(Serialize(rows[0].1) + after) == Some((rows[0].1, after));
    ParseRowsFirst(rows[0].0, rows[0].1, after);
  }

  lemma {:induction false} ParseRowsRoundTrip(rows: seq<(bytes, BValue)>, rest: bytes)
    requires RowsRoundTrip(rows)
    ensures ParseRows(Concat(RowTokens(MapValues(Serialize, rows))) + [LowerE] + rest) == Some((rows, rest))
  {
    if rows == [] {
      assert Concat(RowTokens(MapValues(Serialize, rows))) + [LowerE] + rest == [LowerE] + rest;
    } else {
      ParseRowsHead(rows, rest);
      RowsRoundTripTail(rows);
      ParseRowsRoundTrip(rows[1..], rest);
      assert [rows[0]] + rows[1..] == rows;
    }
  }

  lemma IntRoundTrip(n: int, rest: bytes)
    ensures ParseValue(Serialize(BInt(n)) + rest) == Some((BInt(n), rest))
  {
    assert Serialize(BInt(n)) + rest == [LowerI] + (IntToDecimal(n) + [LowerE] + rest);
    ParseIntegerRoundTrip(n, rest);
  }

  lemma StrRoundTrip(str: bytes, rest: bytes)
    ensures ParseValue(Serialize(BStr(str)) + rest) == Some((BStr(str), rest))
  {
    EncodeStringFirstByte(str);
    ParseStringRoundTrip(str, rest);
  }

  lemma ListRoundTrip(items: seq<BValue>, rest: bytes)
    requires ItemsRoundTrip(items)
    ensures ParseValue(Serialize(BList(items)) + rest) == Some((BList(items), rest))
  {
    SerializeUnfold(BList(items));
    assert Serialize(BList(items)) + rest == [LowerL] + (Concat(Apply(Serialize, items)) + [LowerE] + rest);
    ParseItemsRoundTrip(items, rest);
  }

  lemma DictRoundTrip(rows: seq<(bytes, BValue)>, rest: bytes)
    requires RowsRoundTrip(rows)
    ensures ParseValue(Serialize(BDict(rows)) + rest) == Some((BDict(rows), rest))
  {
    SerializeUnfold(BDict(rows));
    assert Serialize(BDict(rows)) + rest == [LowerD] + (Concat(RowTokens(MapValues(Serialize, rows))) + [LowerE] + rest);
    ParseRowsRoundTrip(rows, rest);
  }

  /** Reading a written value back gives the value and leaves what follows it untouched. */
  lemma {:induction false} ParseValueRoundTrip(b: BValue, rest: bytes)
    ensures ParseValue(Serialize(b) + rest) == Some((b, rest))
    decreases b
  {
    match b
    case BInt(n) => IntRoundTrip(n, rest);
    case BStr(str) => StrRoundTrip(str, rest);
    case BList(items) =>
      forall i, r | 0 <= i < |items|
        ensures ParseValue(Serialize(items[i]) + r) == Some((items[i], r))
      {
        ParseValueRoundTrip(items[i], r);
      }
      ListRoundTrip(items, rest);
    case BDict(rows) =>
      forall i, r | 0 <= i < |rows|
        ensures ParseValue(Serialize(rows[i].1) + r) == Some((rows[i].1, r))
      {
        ParseValueRoundTrip(rows[i].1, r);
      }
      DictRoundTrip(rows, rest);
  }

  /** Every written value decodes to itself. */
  lemma DecodeSerialize(b: BValue)
    ensures Decode(Serialize(b)) == Some(b)
  {
    ParseValueRoundTrip(b, []);
    assert Serialize(b) + [] == Serialize(b);
  }

  /**
   * The encoder's output is well-formed Bencode: it decodes, with nothing left
   * over, to the canonical Bencode value of the input.
   */
  lemma DecodeEncoded(v: Value)
    ensures Decode(Encoded(v)) == Some(Canonical(v))
  {
    EncodedIsSerializedCanonical(v);
    DecodeSerialize(Canonical(v));
  }

  /**
   * Two PHP values get the same text exactly when they have the same canonical
   * Bencode value: the encoder loses nothing beyond what `Canonical` drops.
   */
  lemma EncodedSameIffCanonicalSame(v: Value, w: Value)
    ensures Encoded(v) == Encoded(w) <==> Canonical(v) == Canonical(w)
  {
    DecodeEncoded(v);
    DecodeEncoded(w);
    EncodedIsSerializedCanonical(v);
    EncodedIsSerializedCanonical(w);
  }
}
