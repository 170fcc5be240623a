# Bencode encoder (SandFoxMe\Bencode\Engine\Encoder), modelled in Dafny

This project models the encoder of a PHP Bencode library. An `Encoder` object
holds one PHP value. Its `encode()` method returns the value's Bencode text.

- Integers are written as `i<decimal>e`.
- Strings are written as `<byte length>:<bytes>`.
- Arrays whose keys are 0..n-1 in order, and `ListType` objects, are written as lists `l...e`.
- Every other array, every other `Traversable` and every `stdClass` is written as a dictionary `d...e`. Its rows are sorted by key with `usort` on `strcmp`, after each key goes through `strval`.
- Anything else goes through the string fallback.

The files are:

- `bytes.dfy` (module `Bytes`): byte strings, the `strcmp` order, and the decimal text PHP writes for an integer.
- `keysort.dfy` (module `KeySort`): the `usort` by key, both as a specification function and as a method. Also lemmas stating that the result is sorted, is a permutation of the input, and does not depend on input order when keys are distinct.
- `values.dfy` (module `Values`): the PHP values the encoder dispatches on, its type tests, `strval` of keys, the sequential-array test as a predicate, and the `(array)` cast of a `stdClass`.
- `bencode.dfy` (module `Bencode`): the encoding as functions (`Encoded`), plus the lemmas about it.
- `encoder.dfy` (module `Engine`): class `Encoder`, whose methods build the output step by step as the PHP does. Each method is proved equal to the `Bencode` functions.
- `grammar.dfy` (module `Grammar`): Bencode values (`BValue`) with their plain serializer, and the canonical Bencode value of a PHP value. It proves that:
  - the encoder writes exactly the canonical value;
  - the dictionary keys it writes are strictly ascending when no container repeats a key.
- `decoding.dfy` (module `Decoding`): a reader for the Bencode grammar. It is used as the inverse of the encoder. Every encoder output is proved to decode back to the canonical value of the input.
- `samples.dfy` (module `Samples`): worked examples over ASCII literals: `i0e`, `i-5e`, `0:`, `4:spam`, `l4:spam4:eggse`, `d3:cow3:moo5:zebra5:worlde` in both input orders, `d4:spaml1:a1:bee`, `d1:5i1ee`.

The PHP value is modelled by the datatype `Values.Value`:

- `Int`
- `Str`
- `Arr` (key => value entries in iteration order)
- `ListOf` (the values a `ListType` yields)
- `Traversable` (the key => value pairs any other `Traversable` yields)
- `StdClass` (property name => value)
- `Scalar`: a float, a bool or an object with `__toString`, already turned into the string PHP's coercion to `string` makes of it.

The encoder's private methods recurse into nested values. They are methods of class `Encoder`, and a ghost `owner` argument bounds the recursion.

Two behaviours of the code worth knowing, both kept by the model:

- **Duplicate keys.** Keys that coincide after `strval` (possible only from a `Traversable`) are written once per row, so the dictionary written then repeats a key. The order and key-uniqueness results (`Bencode.DictionaryOrderIrrelevant`, `Grammar.CanonicalInKeyOrder`) require distinct keys.
- **Empty containers.** Only an empty array or an empty `ListType` gives `le`. An empty `Traversable` or `stdClass` gives `de` (`Bencode.EmptyContainers`).

## Model

| member | source | states |
|---|---|---|
| Engine.Encoder.constructor | src/Engine/Encoder.php:17-20 | The encoder stores the value it is given; the options argument has no effect |
| Engine.Encoder.Encode | src/Engine/Encoder.php:22-25 | `encode()` returns the Bencode text of the stored value |
| Engine.Encoder.EncodeValue | src/Engine/Encoder.php:27-63 | The type tests applied in order (int, array sequential or not, ListType, other Traversable, stdClass, string fallback) give exactly `Bencode.Encoded(value)` |
| Bencode.EncodedProduction | src/Engine/Encoder.php:27-63 | Every value gets one production, and the first byte identifies it. `i` iff int; `l` iff ListType or sequential array; `d` iff other Traversable, stdClass or non-sequential array; a digit iff the string fallback. Every non-string production ends in `e` |
| Bencode.EncodeInteger | src/Engine/Encoder.php:65-68 | `i`, then text in the integer grammar (optional `-`, no leading zeros, no `-0`) that reads back as the integer, then `e` |
| Bytes.IntToDecimal | src/Engine/Encoder.php:67 | The interpolated integer text is in the integer grammar and starts with `-` exactly for negative numbers |
| Bytes.NatDigits | src/Engine/Encoder.php:67 | The digits of a natural number have no leading zero, and start with `0` only for zero |
| Bytes.IntToDecimalValue | src/Engine/Encoder.php:67 | Reading back the decimal text of an integer gives the integer |
| Bytes.IntToDecimalInjective | src/Engine/Encoder.php:67 | Distinct integers get distinct texts |
| Bytes.IntToDecimalOfValue | src/Engine/Encoder.php:67 | Every text in the integer grammar is the text PHP writes for its value |
| Bencode.EncodeString | src/Engine/Encoder.php:70-73 | Read from the end: the bytes, a colon, and digit text without leading zeros whose value is the byte length |
| Engine.Encoder.EncodeList | src/Engine/Encoder.php:75-86 | The elements encoded in iteration order, joined between `l` and `e` |
| Engine.Encoder.EncodeDictionary | src/Engine/Encoder.php:88-108 | The rows `[strval(key), value]` collected in order, sorted by key, each written as the key's byte string followed by the value's encoding, between `d` and `e` |
| Values.Strval | src/Engine/Encoder.php:92-94 | `strval` of an integer key is canonical integer text (optional `-`, no leading zeros, no `-0`) that reads back as the key; a string key is returned unchanged |
| Bencode.SortedThenEncoded | src/Engine/Encoder.php:92-105 | Sorting the `[key, value]` rows and then encoding the values (as the code does) gives the same text as encoding first and then sorting |
| KeySort.UsortByKey | src/Engine/Encoder.php:97-100 | The in-place sort of the rows produces `SortByKey(rows)` |
| KeySort.InsertRow | src/Engine/Encoder.php:97-100 | One insertion step: the first i+1 rows become the sorted prefix with row i inserted, and the rest is untouched |
| KeySort.SortByKey | src/Engine/Encoder.php:97-100 | The sorted rows have the same length and the same rows as the input |
| KeySort.InsertByKey | src/Engine/Encoder.php:97-100 | Inserting a row adds exactly that row |
| KeySort.InsertByKeySorted | src/Engine/Encoder.php:97-100 | Inserting into rows sorted by key keeps them sorted |
| KeySort.SortByKeySorted | src/Engine/Encoder.php:97-100 | After sorting, no key is `strcmp`-below a key before it |
| KeySort.SortByKeyMapValues | src/Engine/Encoder.php:97-104 | The sort looks only at keys, so it commutes with rewriting the values |
| KeySort.SortedUnique | src/Engine/Encoder.php:97-100 | Two sorted arrangements of the same rows with distinct keys are equal |
| KeySort.SortByKeyPermutationInvariant | src/Engine/Encoder.php:97-100 | With distinct keys, sorting any rearrangement of the rows gives the same result |
| KeySort.InsertByKeyStable | src/Engine/Encoder.php:97-100 | An inserted row lands after every row that shares its key; the other rows with that key keep their order |
| KeySort.SortByKeyStable | src/Engine/Encoder.php:97-100 | The sort is stable: for every key, the rows with that key come out in the order they went in |
| KeySort.DistinctKeysPermutation | src/Engine/Encoder.php:97-100 | Rearranging rows keeps their keys distinct |
| KeySort.SortedDistinctStrict | src/Engine/Encoder.php:97-100 | In sorted rows with distinct keys the keys go strictly up |
| Bytes.StrCmp | src/Engine/Encoder.php:99 | `strcmp` of two byte strings has sign -1, 0 or 1 |
| Bytes.StrCmpZeroIffEqual | src/Engine/Encoder.php:99 | `strcmp` is 0 exactly for equal strings |
| Bytes.StrCmpAntisymmetric | src/Engine/Encoder.php:99 | Swapping the arguments negates `strcmp` |
| Bytes.BelowTransitive | src/Engine/Encoder.php:99 | The `strcmp` order is transitive |
| Bytes.BelowTrichotomy | src/Engine/Encoder.php:99 | Any two strings are ordered one way, the other, or equal; never both ways |
| Bytes.BelowIsLexLess | src/Engine/Encoder.php:99 | `strcmp` order is lexicographic order on unsigned byte values (prefix first) |
| Engine.Encoder.IsSequentialArray | src/Engine/Encoder.php:110-123 | True exactly when the keys are 0, 1, ..., n-1 in iteration order under `!==`; vacuously true when empty |
| Bencode.SequentialArrayAsList | src/Engine/Encoder.php:37-39 | An array with keys 0..n-1 is written exactly as the list of its values |
| Bencode.EmptyContainers | src/Engine/Encoder.php:36-59 | The empty array and the empty ListType give `le`; an empty Traversable and an empty stdClass give `de` |
| Bencode.DictionaryOrderIrrelevant | src/Engine/Encoder.php:88-108 | Any rearrangement of pairs with distinct `strval` keys gives the same dictionary text, for a Traversable and for a non-sequential array |
| Bencode.PropertyOrderIrrelevant | src/Engine/Encoder.php:56-59 | Any rearrangement of a stdClass's properties with distinct names gives the same dictionary text |
| Values.ArrayKey | src/Engine/Encoder.php:58 | A property name stored as an array key (decimal names becoming integers) comes back unchanged through `strval` |
| Bencode.StdClassAsDictionary | src/Engine/Encoder.php:56-59 | A stdClass is the dictionary of its property names to their values |
| Grammar.EncodedIsSerializedCanonical | src/Engine/Encoder.php:27-108 | The encoder's output is the plain Bencode serialization of the canonical Bencode value of its input |
| Grammar.CanonicalInKeyOrder | src/Engine/Encoder.php:88-108 | When no container repeats a key after `strval`, every dictionary written, at every depth, has strictly ascending keys |
| Grammar.DictInKeyOrder | src/Engine/Encoder.php:88-108 | Sorted dictionary rows with distinct keys are strictly ascending |
| Grammar.ObjectRowsKeepNames | src/Engine/Encoder.php:58 | Distinct property names stay distinct after the array cast and `strval` |
| Decoding.ParseValueRoundTrip | src/Engine/Encoder.php:27-108 | Any written Bencode value reads back from the front of a text, leaving what follows untouched (the output is self-delimiting) |
| Decoding.ParseIntegerRoundTrip | src/Engine/Encoder.php:65-68 | The integer token reads back as the integer |
| Decoding.ParseStringRoundTrip | src/Engine/Encoder.php:70-73 | The byte-string token reads back as the bytes, whatever follows |
| Decoding.ParseItemsRoundTrip | src/Engine/Encoder.php:75-86 | A list body reads back element by element up to its `e` |
| Decoding.ParseRowsRoundTrip | src/Engine/Encoder.php:88-108 | A dictionary body reads back row by row up to its `e` |
| Decoding.DecodeSerialize | src/Engine/Encoder.php:27-108 | Every written Bencode value decodes to itself |
| Decoding.DecodeEncoded | src/Engine/Encoder.php:22-25 | The output of `encode()` decodes, with nothing left over, to the canonical value of the input |
| Decoding.EncodedSameIffCanonicalSame | src/Engine/Encoder.php:22-25 | Two values get the same text exactly when their canonical Bencode values are equal |
| Samples.IntegerSamples | src/Engine/Encoder.php:65-68 | `42`, `0` and `-5` give `i42e`, `i0e` and `i-5e` |
| Samples.StringSamples | src/Engine/Encoder.php:70-73 | `"spam"` gives `4:spam`; the empty string gives `0:` |
| Samples.TwoItemList | src/Engine/Encoder.php:75-86 | A two-element list is `l`, both encodings in order, `e` |
| Samples.ListSample | src/Engine/Encoder.php:75-86 | The ListType `["spam", "eggs"]` gives `l4:spam4:eggse` |
| Samples.ArraySample | src/Engine/Encoder.php:36-43 | The array `["spam", "eggs"]` gives `l4:spam4:eggse` |
| Samples.OneRowDictionary | src/Engine/Encoder.php:88-108 | A one-row dictionary is `d`, the key's byte string, the value, `e` |
| Samples.TwoRowDictionary | src/Engine/Encoder.php:88-108 | Two rows arriving with the larger key first are written swapped |
| Samples.DictionarySample | src/Engine/Encoder.php:88-108 | `zebra => world, cow => moo` gives `d3:cow3:moo5:zebra5:worlde` |
| Samples.DictionaryReorderedSample | src/Engine/Encoder.php:88-108 | `cow => moo, zebra => world` gives the same text |
| Samples.NestedSample | src/Engine/Encoder.php:88-108 | `spam => ["a", "b"]` gives `d4:spaml1:a1:bee` |
| Samples.IntegerKeySample | src/Engine/Encoder.php:92-94 | The array `[5 => 1]` is not sequential, and its key is written as the string `5`: `d1:5i1ee` |

## Left out

- The string fallback's coercion of floats, booleans and `__toString` objects to text. PHP's conversion rules are not modelled; `Scalar` carries the resulting text.
- Failing inputs. `encodeString` declares a `string` parameter, so `null`, a resource, or an object that is neither `Traversable`, `stdClass` nor stringable throws a `TypeError` when it reaches the fallback (at any depth). The model has no such values: every modelled input encodes.
- The `$options` constructor argument, which the class never reads.
- How a `ListType` or another `Traversable` produces its elements. The model takes the sequence of values, or of key => value pairs, that its iteration yields. Keys yielded by a Traversable are limited to integers and strings.
- `ListType` is not part of this model beyond being a `Traversable` that the encoder writes as a list.
- PHP's normalisation of array keys when an array is built is taken as given rather than enforced. An `Arr` may hold the string key `"5"`, which PHP would have stored as the integer 5. Only the `stdClass` cast builds keys, through `Values.ArrayKey`.
- Bencode.EncodeInteger: PHP integers are 64-bit. The model takes unbounded integers; no PHP `int` lies outside the modelled range, so nothing is lost.
- Bytes.StrCmp: PHP's `strcmp` returns a signed byte difference or -1/1 depending on the version. The model returns only the sign, which is all `usort` looks at.
- KeySort.UsortByKey: `usort` is modelled as a stable insertion sort (stability is `KeySort.SortByKeyStable`), as PHP 8's sort is stable. With distinct keys every correct sort gives the same result (`KeySort.SortByKeyPermutationInvariant`), so the algorithm matters only for duplicate keys. For those, the model fixes their relative input order, which PHP before 8.0 does not guarantee.
- The array being updated in place by `usort` is modelled as a sequence that the method reassigns.
- Duplicate keys after `strval` are written as the code writes them, once per row. The order and key-uniqueness results are stated for distinct keys only.
- Recursion-depth limits and cyclic values: the model's values are finite trees.
- Decoding is not an operation of the encoder. `Decoding` is a reference reader used only to state the round trip, and it accepts canonical text only.
