/**
 * Worked examples of the encoder's output, with the PHP value on the left and
 * the Bencode text on the right, stated over ASCII literals.
 *
 * Each example is put together from a general lemma about the shape of the
 * output (a two-element list, a one-row or two-row dictionary), the tokens of
 * its scalars, and the split of the expected text into those tokens.
 */
module Samples {
  import opened Bytes
  import opened KeySort
  import opened Values
  import opened Bencode

  // ---------------------------------------------------------------------------
  // Scalars

  /** `42`, `0` and `-5` as Bencode integers: no padding, one minus sign. */
  lemma IntegerSamples()
    ensures Encoded(Int(42)) == Ascii("i42e")
    ensures Encoded(Int(0)) == Ascii("i0e")
    ensures Encoded(Int(-5)) == Ascii("i-5e")
  {
  }

  /** `"spam"` and the empty string as byte strings. */
  lemma StringSamples()
    ensures Encoded(Str(Ascii("spam"))) == Ascii("4:spam")
    ensures Encoded(Str([])) == Ascii("0:")
  {
  }

  // ---------------------------------------------------------------------------
  // Shapes

  lemma ConcatOne(x: bytes)
    ensures Concat([x]) == x
  {
    assert [x][..0] == [];
  }

  lemma ConcatTwo(x: bytes, y: bytes)
    ensures Concat([x, y]) == x + y
  {
    assert [x, y][..1] == [x];
    ConcatOne(x);
  }

  lemma ListTokenTwo(x: bytes, y: bytes)
    ensures ListToken([x, y]) == [LowerL] + x + y + [LowerE]
  {
    ConcatTwo(x, y);
  }

  /** A two-element list is its two encodings between `l` and `e`. */
  lemma TwoItemList(a: Value, b: Value)
    ensures Encoded(ListOf([a, b])) == [LowerL] + Encoded(a) + Encoded(b) + [LowerE]
  {
    ListOfUnfold([a, b]);
    assert EncodedValues([a, b]) == [Encoded(a), Encoded(b)];
    ListTokenTwo(Encoded(a), Encoded(b));
  }

  lemma OneRowToken(row: (bytes, bytes))
    ensures DictToken([row]) == [LowerD] + EncodeString(row.0) + row.1 + [LowerE]
  {
    assert [row][..0] == [];
    assert SortByKey([row]) == [row];
    assert RowTokens([row]) == [RowToken(row)];
    ConcatOne(RowToken(row));
  }

  /** A one-row dictionary is its key as a byte string followed by its value, between `d` and `e`. */
  lemma OneRowDictionary(k: bytes, v: Value)
    ensures Encoded(Traversable([(StrKey(k), v)])) == [LowerD] + EncodeString(k) + Encoded(v) + [LowerE]
  {
    TraversableUnfold([(StrKey(k), v)]);
    assert EncodedRows([(StrKey(k), v)]) == [(k, Encoded(v))];
    OneRowToken((k, Encoded(v)));
  }

  lemma SortTwoRows<T>(a: (bytes, T), b: (bytes, T))
    requires Below(b.0, a.0)
    ensures SortByKey([a, b]) == [b, a]
  {
    assert [a, b][..1] == [a];
    assert [a][..0] == [];
    assert SortByKey([a]) == [a];
  }

  lemma RowTokensTwo(x: (bytes, bytes), y: (bytes, bytes))
    ensures RowTokens([x, y]) == [RowToken(x), RowToken(y)]
  {
  }

  lemma TwoRowToken(a: (bytes, bytes), b: (bytes, bytes))
    requires Below(b.0, a.0)
    ensures DictToken([a, b]) == [LowerD] + RowToken(b) + RowToken(a) + [LowerE]
  {
    SortTwoRows(a, b);
    RowTokensTwo(b, a);
    ConcatTwo(RowToken(b), RowToken(a));
  }

  lemma Regroup(d: bytes, x1: bytes, y1: bytes, x2: bytes, y2: bytes, e: bytes)
    ensures d + (x1 + y1) + (x2 + y2) + e == d + x1 + y1 + x2 + y2 + e
  {
  }

  lemma EncodedRowsTwo(k1: bytes, v1: Value, k2: bytes, v2: Value)
    ensures EncodedRows([(StrKey(k1), v1), (StrKey(k2), v2)]) == [(k1, Encoded(v1)), (k2, Encoded(v2))]
  {
  }

  /** Two rows that arrive with the larger key first come out swapped. */
  lemma TwoRowDictionary(k1: bytes, v1: Value, k2: bytes, v2: Value)
    requires Below(k2, k1)
    ensures Encoded(Traversable([(StrKey(k1), v1), (StrKey(k2), v2)]))
         == [LowerD] + EncodeString(k2) + Encoded(v2) + EncodeString(k1) + Encoded(v1) + [LowerE]
  {
    var pairs := [(StrKey(k1), v1), (StrKey(k2), v2)];
    TraversableUnfold(pairs);
    EncodedRowsTwo(k1, v1, k2, v2);
    var a, b := (k1, Encoded(v1)), (k2, Encoded(v2));
    TwoRowToken(a, b);
    assert RowToken(a) == EncodeString(k1) + Encoded(v1);
    assert RowToken(b) == EncodeString(k2) + Encoded(v2);
    Regroup([LowerD], EncodeString(k2), Encoded(v2), EncodeString(k1), Encoded(v1), [LowerE]);
  }

  // ---------------------------------------------------------------------------
  // Text

  lemma AsciiConcat(a: string, b: string)
    ensures Ascii(a + b) == Ascii(a) + Ascii(b)
  {
  }

  lemma Delimiters()
    ensures Ascii("l") == [LowerL] && Ascii("d") == [LowerD] && Ascii("e") == [LowerE]
  {
  }

  lemma Pieces4(a: bytes, b: bytes, c: bytes, d: bytes, a': bytes, b': bytes, c': bytes, d': bytes)
    requires a == a' && b == b' && c == c' && d == d'
    ensures a + b + c + d == a' + b' + c' + d'
  {
  }

  lemma Pieces6(a: bytes, b: bytes, c: bytes, d: bytes, e: bytes, f: bytes,
                a': bytes, b': bytes, c': bytes, d': bytes, e': bytes, f': bytes)
    requires a == a' && b == b' && c == c' && d == d' && e == e' && f == f'
    ensures a + b + c + d + e + f == a' + b' + c' + d' + e' + f'
  {
  }

  // ---------------------------------------------------------------------------
  // A list

  lemma SpamToken()
    ensures Encoded(Str(Ascii("spam"))) == Ascii("4:spam")
  {
  }

  lemma EggsToken()
    ensures Encoded(Str(Ascii("eggs"))) == Ascii("4:eggs")
  {
  }

  lemma ListText()
    ensures Ascii("l4:spam4:eggse") == Ascii("l") + Ascii("4:spam") + Ascii("4:eggs") + Ascii("e")
  {
    assert "l4:spam4:eggse" == "l" + "4:spam" + "4:eggs" + "e";
    AsciiConcat("l", "4:spam");
    AsciiConcat("l" + "4:spam", "4:eggs");
    AsciiConcat("l" + "4:spam" + "4:eggs", "e");
  }

  /** `["spam", "eggs"]` from a ListType. */
  lemma ListSample()
    ensures Encoded(ListOf([Str(Ascii("spam")), Str(Ascii("eggs"))])) == Ascii("l4:spam4:eggse")
  {
    var spam, eggs := Str(Ascii("spam")), Str(Ascii("eggs"));
    TwoItemList(spam, eggs);
    SpamToken();
    EggsToken();
    Delimiters();
    ListText();
    Pieces4([LowerL], Encoded(spam), Encoded(eggs), [LowerE],
            Ascii("l"), Ascii("4:spam"), Ascii("4:eggs"), Ascii("e"));
  }

  /** `["spam", "eggs"]` as a PHP array: its keys are 0 and 1, so it is the same list. */
  lemma ArraySample()
    ensures Encoded(Arr([(IntKey(0), Str(Ascii("spam"))), (IntKey(1), Str(Ascii("eggs")))])) == Ascii("l4:spam4:eggse")
  {
    var spam, eggs := Str(Ascii("spam")), Str(Ascii("eggs"));
    var entries := [(IntKey(0), spam), (IntKey(1), eggs)];
    SequentialArrayAsList(entries);
    assert ValuesOf(entries) == [spam, eggs];
    ListSample();
  }

  // ---------------------------------------------------------------------------
  // A dictionary, in both input orders

  lemma CowBelowZebra()
    ensures Below(Ascii("cow"), Ascii("zebra"))
  {
    assert Ascii("cow")[0] == 99 && Ascii("zebra")[0] == 122;
  }

  lemma CowToken()
    ensures EncodeString(Ascii("cow")) == Ascii("3:cow")
  {
  }

  lemma MooToken()
    ensures Encoded(Str(Ascii("moo"))) == Ascii("3:moo")
  {
  }

  lemma ZebraToken()
    ensures EncodeString(Ascii("zebra")) == Ascii("5:zebra")
  {
  }

  lemma WorldToken()
    ensures Encoded(Str(Ascii("world"))) == Ascii("5:world")
  {
  }

  lemma DictTextFront()
    ensures Ascii("d3:cow3:moo") == Ascii("d") + Ascii("3:cow") + Ascii("3:moo")
  {
    assert "d3:cow3:moo" == "d" + "3:cow" + "3:moo";
    AsciiConcat("d", "3:cow");
    AsciiConcat("d" + "3:cow", "3:moo");
  }

  lemma DictTextBack()
    ensures Ascii("5:zebra5:worlde") == Ascii("5:zebra") + Ascii("5:world") + Ascii("e")
  {
    assert "5:zebra5:worlde" == "5:zebra" + "5:world" + "e";
    AsciiConcat("5:zebra", "5:world");
    AsciiConcat("5:zebra" + "5:world", "e");
  }

  lemma DictText()
    ensures Ascii("d3:cow3:moo5:zebra5:worlde")
         == Ascii("d") + Ascii("3:cow") + Ascii("3:moo") + Ascii("5:zebra") + Ascii("5:world") + Ascii("e")
  {
    assert "d3:cow3:moo5:zebra5:worlde" == "d3:cow3:moo" + "5:zebra5:worlde";
    AsciiConcat("d3:cow3:moo", "5:zebra5:worlde");
    DictTextFront();
    DictTextBack();
  }

  /** `['zebra' => 'world', 'cow' => 'moo']` from a Traversable: the rows are sorted by key. */
  lemma DictionarySample()
    ensures Encoded(Traversable([(StrKey(Ascii("zebra")), Str(Ascii("world"))), (StrKey(Ascii("cow")), Str(Ascii("moo")))]))
         == Ascii("d3:cow3:moo5:zebra5:worlde")
  {
    var zebra, world, cow, moo := Ascii("zebra"), Str(Ascii("world")), Ascii("cow"), Str(Ascii("moo"));
    CowBelowZebra();
    TwoRowDictionary(zebra, world, cow, moo);
    CowToken();
    MooToken();
    ZebraToken();
    WorldToken();
    Delimiters();
    DictText();
    Pieces6([LowerD], EncodeString(cow), Encoded(moo), EncodeString(zebra), Encoded(world), [LowerE],
            Ascii("d"), Ascii("3:cow"), Ascii("3:moo"), Ascii("5:zebra"), Ascii("5:world"), Ascii("e"));
  }

  /** The same two rows arriving in key order give the same text. */
  lemma DictionaryReorderedSample()
    ensures Encoded(Traversable([(StrKey(Ascii("cow")), Str(Ascii("moo"))), (StrKey(Ascii("zebra")), Str(Ascii("world")))]))
         == Ascii("d3:cow3:moo5:zebra5:worlde")
  {
    var zebra, world, cow, moo := Ascii("zebra"), Str(Ascii("world")), Ascii("cow"), Str(Ascii("moo"));
    var p := [(StrKey(zebra), world), (StrKey(cow), moo)];
    var q := [(StrKey(cow), moo), (StrKey(zebra), world)];
    assert multiset(p) == multiset(q);
    CowBelowZebra();
    BelowTrichotomy(cow, zebra);
    assert StrvalRows(p) == [(zebra, world), (cow, moo)];
    DictionaryOrderIrrelevant(p, q);
    DictionarySample();
  }

  // ---------------------------------------------------------------------------
  // Nesting and integer keys

  lemma NestedTokens()
    ensures EncodeString(Ascii("spam")) == Ascii("4:spam")
    ensures Encoded(Str(Ascii("a"))) == Ascii("1:a") && Encoded(Str(Ascii("b"))) == Ascii("1:b")
  {
  }

  lemma InnerListText()
    ensures Ascii("l1:a1:be") == Ascii("l") + Ascii("1:a") + Ascii("1:b") + Ascii("e")
  {
    assert "l1:a1:be" == "l" + "1:a" + "1:b" + "e";
    AsciiConcat("l", "1:a");
    AsciiConcat("l" + "1:a", "1:b");
    AsciiConcat("l" + "1:a" + "1:b", "e");
  }

  lemma NestedText()
    ensures Ascii("d4:spaml1:a1:bee") == Ascii("d") + Ascii("4:spam") + Ascii("l1:a1:be") + Ascii("e")
  {
    assert "d4:spaml1:a1:bee" == "d" + "4:spam" + "l1:a1:be" + "e";
    AsciiConcat("d", "4:spam");
    AsciiConcat("d" + "4:spam", "l1:a1:be");
    AsciiConcat("d" + "4:spam" + "l1:a1:be", "e");
  }

  /** `['a', 'b']` as a ListType. */
  lemma InnerList()
    ensures Encoded(ListOf([Str(Ascii("a")), Str(Ascii("b"))])) == Ascii("l1:a1:be")
  {
    var a, b := Str(Ascii("a")), Str(Ascii("b"));
    TwoItemList(a, b);
    NestedTokens();
    Delimiters();
    InnerListText();
    Pieces4([LowerL], Encoded(a), Encoded(b), [LowerE], Ascii("l"), Ascii("1:a"), Ascii("1:b"), Ascii("e"));
  }

  /** `['spam' => ['a', 'b']]`: a dictionary holding a list. */
  lemma NestedSample()
    ensures Encoded(Traversable([(StrKey(Ascii("spam")), ListOf([Str(Ascii("a")), Str(Ascii("b"))]))]))
         == Ascii("d4:spaml1:a1:bee")
  {
    var inner := ListOf([Str(Ascii("a")), Str(Ascii("b"))]);
    OneRowDictionary(Ascii("spam"), inner);
    InnerList();
    NestedTokens();
    Delimiters();
    NestedText();
    Pieces4([LowerD], EncodeString(Ascii("spam")), Encoded(inner), [LowerE],
            Ascii("d"), Ascii("4:spam"), Ascii("l1:a1:be"), Ascii("e"));
  }

  /** `[5 => 1]`: the array is not sequential, and the integer key is written as the string "5". */
  lemma IntegerKeySample()
    ensures Encoded(Arr([(IntKey(5), Int(1))])) == Ascii("d1:5i1ee")
  {
  }
}
