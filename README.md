# RedisMap: a `Map<String, Integer>` kept in one Redis hash

`RedisMap` implements `java.util.Map<String, Integer>`, but it keeps no entries of its own. Its whole state is one remote Redis hash, named by a fixed hash key. Each method `RedisMap` defines becomes one or two Redis commands: the hash commands HGET, HSET, HDEL, HEXISTS, HLEN, HVALS, HKEYS and HGETALL, and DEL of the hash's key. The `java.util.Map` defaults it inherits, such as `remove(key, value)`, call those methods in turn. Integers go into the hash as their `Integer.toString` text and come back through `Integer.valueOf`.

The model has three modules:

- `IntCodec` (`int_codec.dfy`) covers Java's 32-bit `int`.
  - `EncodeInt` is `Integer.toString`.
  - `DecodeInt` is `Integer.valueOf`. It returns `None` where Java throws `NumberFormatException`: for text that is not an optional sign followed by digits, and for a numeral outside the 32-bit range.
  - `LongToInt` is the `(int)` cast of a `long`.
  - `Canonical` holds of exactly the text that `Integer.toString` writes.
- `RedisHash` (`redis_hash.dfy`) gives each hash command its meaning from the Redis command reference. It works on `Hash = map<string, string>`. HVALS is a multiset, because Redis does not promise an order.
- `RedisMapAdapter` (`redis_map.dfy`) holds the adapter.
  - The class `RedisMap` has one field, `store: Hash`. It stands for the remote hash.
  - The read-only operations are functions that read `store`. `put`, `remove`, `putAll` and `clear` are methods that reassign it. `putAll`'s loop that encodes each entry is the method `EncodeEntries`.
  - A decode failure is an `Outcome` error, `Err(NumberFormatException)`, never a precondition. The constructor accepts a hash that other clients may already have filled with anything.
  - `Valid()` is the class invariant: every stored string is canonical. Every write keeps it, because the adapter writes only `Integer.toString` output. Under `Valid()`, no read throws.

The methods whose names end in `Sequence` are client proofs. `SizeSequence`, `ContainsValueSequence` and `PutAllSequence` each follow the call sequence of one of the repository's tests and show which of the test's assertions follow from the contracts alone. `EmptyPutAllSequence` follows no test: it exhibits the "## Findings" row. `SizeSequence` hands parts of its test to the methods ending in `Steps`, so that each proof stays small. `PutAllSequence` starts from any hash rather than from the test's two puts.

Where the code departs from the `java.util.Map` contract, or from what its names suggest, the model follows the code:

- `containsValue` takes any object and compares its `toString()` with the stored strings. The repository's test passes it the string `"1"`. So `ContainsValue` takes the text, and `ContainsValueOfInteger` gives its meaning for an integer argument.
- `putAll` can fail, although `java.util.Map.putAll` only ever stores entries. See "## Findings".
- `values()` returns a list in HVALS order. The model keeps only the multiset.

## Model

| member | source | states |
|---|---|---|
| `IntCodec.EncodeInt` | src/main/java/org/example/util/RedisMap.java:84 | `Integer.toString` text is non-empty and begins with `-` exactly for negative values |
| `IntCodec.NatToDecimal` | src/main/java/org/example/util/RedisMap.java:84 | the digits of a magnitude are all decimal digits, at least one, with no leading zero except for zero itself |
| `IntCodec.DecimalValueOfNatToDecimal` | src/main/java/org/example/util/RedisMap.java:72 | reading the written digits back gives the magnitude that was written |
| `IntCodec.DecodeInt` | src/main/java/org/example/util/RedisMap.java:72 | `Integer.valueOf` succeeds only on a numeral (an optional sign, then digits), and on the text of any 32-bit value it returns that value |
| `IntCodec.NumeralOfEncodeInt` | src/main/java/org/example/util/RedisMap.java:84 | the text `Integer.toString` writes for any integer is a numeral with that integer's value |
| `IntCodec.RoundTrip` | src/main/java/org/example/util/RedisMap.java:84-85 | `Integer.valueOf(Integer.toString(v)) == v` for every 32-bit `v`, including zero and negative values; outside the 32-bit range decoding fails |
| `IntCodec.EncodedIsCanonical` | src/main/java/org/example/util/RedisMap.java:109 | every string the adapter writes is canonical, which makes the class invariant hold |
| `IntCodec.EncodeInjective` | src/main/java/org/example/util/RedisMap.java:61 | two integers have the same stored text exactly when they are equal |
| `IntCodec.CanonicalText` | src/main/java/org/example/util/RedisMap.java:61 | a canonical string decodes to `x` exactly when it equals `x`'s text, so comparing strings stands for comparing integers |
| `IntCodec.DecodeAcceptsNonCanonicalText` | src/main/java/org/example/util/RedisMap.java:72 | `Integer.valueOf` accepts leading zeros and a plus sign (`"07"`, `"+7"` give 7) and rejects `""`, `"-"` and `"7a"` |
| `IntCodec.DecodeRejectsOverflow` | src/main/java/org/example/util/RedisMap.java:72 | the text of 2^31 and of -2^31 - 1 does not decode |
| `IntCodec.LongToInt` | src/main/java/org/example/util/RedisMap.java:31-32 | the `(int)` cast agrees with its argument modulo 2^32 and keeps every 32-bit value unchanged |
| `RedisHash.HGetAfterWrite` | src/main/java/org/example/util/RedisMap.java:71 | after HSET, HDEL or a batched HSET, the written field reads what was written (nil after HDEL) and every other field reads as before; after DEL every field reads nil |
| `RedisHash.HSetAll` | src/main/java/org/example/util/RedisMap.java:111 | a batched HSET with no pairs is an error reply; otherwise the given fields are overwritten and the others kept |
| `RedisHash.ValuesOf` | src/main/java/org/example/util/RedisMap.java:137-139 | the HVALS multiset has one element per field, and each value occurs as often as there are fields holding it |
| `RedisHash.InValuesOf` | src/main/java/org/example/util/RedisMap.java:61 | a string is among the HVALS reply exactly when some field holds it |
| `RedisMapAdapter.DecodeReply` | src/main/java/org/example/util/RedisMap.java:72 | a nil reply gives null, text that decodes gives its value, and any other text throws `NumberFormatException` and nothing else; a reply that is `toString` output reads back as the integer with that text |
| `RedisMapAdapter.Decoded` | src/main/java/org/example/util/RedisMap.java:148-150 | the presented integer map has the hash's fields when all decode, each mapped to the value its string decodes to |
| `RedisMapAdapter.EntriesDetermineMap` | src/main/java/org/example/util/RedisMap.java:156 | two maps have equal entry sets exactly when they are equal maps |
| `RedisMapAdapter.EncodedEntries` | src/main/java/org/example/util/RedisMap.java:107-111 | the batch `putAll` sends has exactly the argument's keys, and each field's text is canonical and decodes to the argument's value |
| `RedisMapAdapter.EncodeEntries` | src/main/java/org/example/util/RedisMap.java:107-110 | the loop builds exactly that batch: every key of the argument with its value's `toString` text, nothing else |
| `RedisMapAdapter.RedisMap.constructor` | src/main/java/org/example/util/RedisMap.java:20-23 | the adapter starts on the hash as it already is remotely |
| `RedisMapAdapter.RedisMap.Size` | src/main/java/org/example/util/RedisMap.java:30-33 | `size()` is the number of fields when that fits in an `int`, and is congruent to it modulo 2^32 otherwise |
| `RedisMapAdapter.RedisMap.IsEmpty` | src/main/java/org/example/util/RedisMap.java:40-42 | for any hash Redis can hold (fewer than 2^32 fields), `isEmpty()` holds exactly when the hash has no fields |
| `RedisMapAdapter.RedisMap.ContainsKey` | src/main/java/org/example/util/RedisMap.java:50-52 | `containsKey(k)` holds exactly when HGET of `k` would return a value |
| `RedisMapAdapter.RedisMap.ContainsValue` | src/main/java/org/example/util/RedisMap.java:60-62 | `containsValue(o)` holds exactly when some field holds the string `o.toString()` |
| `RedisMapAdapter.ContainsValueOfInteger` | src/main/java/org/example/util/RedisMap.java:60-62 | on a hash the adapter wrote, `containsValue(x)` for an integer holds exactly when some key's `get` returns `x` |
| `RedisMapAdapter.RedisMap.Get` | src/main/java/org/example/util/RedisMap.java:70-73 | null exactly for an absent key; a throw exactly when the stored string does not decode; otherwise the decoded value; on a valid hash it never throws, and the result's text is the stored string |
| `RedisMapAdapter.ValidReadsSucceed` | src/main/java/org/example/util/RedisMap.java:70-157 | on a hash the adapter wrote, `get`, `values`, `entrySet` and `equals` never throw `NumberFormatException` |
| `RedisMapAdapter.GetOfDecoded` | src/main/java/org/example/util/RedisMap.java:70-73 | on a valid hash, `get` reads back exactly the presented map |
| `RedisMapAdapter.RedisMap.GetOrDefault` | src/main/java/org/example/util/RedisMap.java:11 | the default from `java.util.Map`: the fallback for an absent key, otherwise exactly what `get` gives, including `get`'s exception |
| `RedisMapAdapter.RedisMap.Put` | src/main/java/org/example/util/RedisMap.java:82-86 | returns what `get` gave before (null on first insertion); afterwards `get(k) == v` and every other key reads as before; the number of fields grows by one exactly for a new key; the invariant is kept |
| `RedisMapAdapter.RedisMap.Remove` | src/main/java/org/example/util/RedisMap.java:94-99 | returns what `get` gave before (null for an absent key, without error); afterwards the key is absent and every other key reads as before; the number of fields drops by one exactly for a present key; the invariant is kept |
| `RedisMapAdapter.RedisMap.RemoveEntry` | src/test/java/org/example/utils/RedisMapTest.java:122-126 | `remove(key, value)`, inherited from `java.util.Map`, deletes the field and returns true exactly when the key currently maps to `value`; otherwise nothing changes; the invariant is kept |
| `RedisMapAdapter.RedisMap.PutAll` | src/main/java/org/example/util/RedisMap.java:106-112 | as written: every entry of a non-empty argument is stored, fields not in the argument are untouched, and an empty argument throws the Redis error |
| `RedisMapAdapter.RedisMap.PutAllIntended` | src/main/java/org/example/util/RedisMap.java:106-112 | the corrected `putAll` stores every entry, overwriting existing fields, and leaves the others; an empty argument changes nothing |
| `RedisMapAdapter.RedisMap.Clear` | src/main/java/org/example/util/RedisMap.java:118-120 | whatever the hash held, afterwards size is 0, `isEmpty()` holds, `keySet`, `values` and `entrySet` are empty, and every `get` returns null |
| `RedisMapAdapter.RedisMap.KeySet` | src/main/java/org/example/util/RedisMap.java:127-129 | a key is in `keySet()` exactly when `containsKey` holds of it |
| `RedisMapAdapter.RedisMap.Values` | src/main/java/org/example/util/RedisMap.java:136-140 | throws exactly when some stored string does not decode; otherwise has one element per field, and each integer occurs as often as there are fields decoding to it |
| `RedisMapAdapter.InValues` | src/main/java/org/example/util/RedisMap.java:136-140 | an integer is among `values()` exactly when some key's `get` returns it |
| `RedisMapAdapter.RedisMap.EntrySet` | src/main/java/org/example/util/RedisMap.java:147-151 | throws exactly when some stored string does not decode; otherwise `(k, x)` is an entry exactly when `get(k)` returns `x` |
| `RedisMapAdapter.RedisMap.Equals` | src/main/java/org/example/util/RedisMap.java:154-157 | false against anything that is not a `Map`; against a map, it throws exactly when some stored string does not decode, and is otherwise true exactly when the presented map equals it |

## Left out

- The Redis connection (`JedisCommands`, a single node or a `JedisCluster`), cluster routing and `close()` are not modelled. The `store` field stands for the one hash the adapter addresses, and the hash key's name does not appear.
- Connection failures and timeouts, which the adapter passes on to its caller, are not modelled. The only Redis error modelled is the error reply to an HSET with no pairs.
- Concurrency is not modelled. `put` and `remove` read and then write, with no atomicity. Each method here is one atomic step, and other clients writing in between are out of scope.
- The order of `values()` is not modelled, because HVALS promises none. `Values` is a multiset. The repository's values test compares against a list in one particular order.
- `hashCode` is left out. Java object hashing has no contract that can be stated here.
- `forEach`, inherited from `java.util.Map`, is left out. It takes a callback, and its order is unspecified.
- `src/main/java/org/example/Main.java` is not part of this model. It is a demonstration driver that prints to the console.
- `src/main/java/org/example/config/RedisConfiguration.java` is not part of this model. It only holds host and port constants.
- `get`, `containsKey` and `remove` take an `Object` and address the field `key.toString()`, so `get(1)` reads the field `"1"`. The model's `key: string` is that text.
- Null keys and null values are left out. Java would throw `NullPointerException` from `toString()`.
- DecodeInt: does not accept the non-ASCII decimal digits (other Unicode digit characters) that `Integer.parseInt` also accepts through `Character.digit`. The adapter never writes them. Only another client could put them in the hash.
- Field names are Dafny strings. The UTF-8 encoding Jedis applies to keys is taken as exact. Strings that UTF-8 cannot represent, such as lone surrogates, are left out.
- Equals: models only `RedisMap.equals`. `HashMap.equals(redisMap)`, which the repository's tests call, is `HashMap`'s code. The other map is taken to have `String` keys and `Integer` values. A map of other types can only have an equal entry set when both are empty, and `MapOf(map[])` covers that case. `Other` cannot stand for an argument map whose own `entrySet()` throws; Java then throws after this map's entries have been read.
- Values, ContainsValue: are ghost functions, because they are defined through HVALS's multiset, which picks fields in no fixed order.

## Findings

| source | as written | input that shows it | evidently intended | confidence | as-written member | corrected member |
|---|---|---|---|---|---|---|
| src/main/java/org/example/util/RedisMap.java:106-112 | the argument's pairs go to one `hset(hashKey, map)` with no check that there are any | `putAll` of an empty map sends `HSET hashKey` with no field/value pairs, and Redis rejects it for a wrong number of arguments (HSET's arity is -4); see `RedisMapAdapter.EmptyPutAllSequence` | `putAll` of an empty map does nothing and succeeds, as `java.util.Map.putAll` specifies | medium; not executed | `RedisMapAdapter.RedisMap.PutAll` | `RedisMapAdapter.RedisMap.PutAllIntended` |
