/** `RedisMap`: a `java.util.Map<String, Integer>` whose entries live in one remote
    Redis hash. Every operation forwards to one or two hash commands on that hash;
    integers are written as their decimal text and parsed back on every read. */
module RedisMapAdapter {
  import opened IntCodec
  import opened RedisHash

  /** The exceptions that escape the adapter's methods. */
  datatype Thrown =
    | NumberFormatException  // Integer.valueOf on text that is not a 32-bit numeral
    | JedisDataException     // an error reply from Redis

  datatype Outcome<T> = Ok(value: T) | Err(thrown: Thrown)

  /** The argument of `equals(Object)`: a `java.util.Map` with its entries, or an
      object of any other class. */
  datatype Other = MapOf(entries: map<string, Int32>) | NotAMap

  /** `(reply != null) ? Integer.valueOf(reply) : null` */
  function DecodeReply(reply: Option<string>): (r: Outcome<Option<Int32>>)
    ensures r == Ok(None) <==> reply.None?
    ensures r.Err? <==> reply.Some? && DecodeInt(reply.value).None?
    ensures r.Ok? && r.value.Some? ==> reply.Some? && DecodeInt(reply.value) == r.value
    ensures r.Err? ==> r.thrown == NumberFormatException
    ensures reply.Some? && Canonical(reply.value) ==>
      r.Ok? && r.value.Some? && EncodeInt(r.value.value) == reply.value
  {
    match reply
    case None => Ok(None)
    case Some(text) =>
      match DecodeInt(text)
      case Some(v) => Ok(Some(v))
      case None => Err(NumberFormatException)
  }

  /** Every stored string can be read back with `Integer.valueOf`. */
  predicate AllDecode(h: Hash) {
    forall f :: f in h ==> DecodeInt(h[f]).Some?
  }

  /** The map of integers the adapter presents for a hash whose strings all decode. */
  function Decoded(h: Hash): (m: map<string, Int32>)
    ensures AllDecode(h) ==> m.Keys == h.Keys
    ensures forall f :: f in m ==> f in h && DecodeInt(h[f]) == Some(m[f])
  {
    map f | f in h && DecodeInt(h[f]).Some? :: DecodeInt(h[f]).value
  }

  /** A map's `entrySet()`. */
  function EntriesOf(m: map<string, Int32>): set<(string, Int32)> {
    set f | f in m :: (f, m[f])
  }

  lemma EntryOf(m: map<string, Int32>, f: string, x: Int32)
    ensures (f, x) in EntriesOf(m) <==> f in m && m[f] == x
  {
  }

  /** Two maps have the same entry set exactly when they are the same map. */
  lemma EntriesDetermineMap(a: map<string, Int32>, b: map<string, Int32>)
    ensures EntriesOf(a) == EntriesOf(b) <==> a == b
  {
    if EntriesOf(a) == EntriesOf(b) {
      forall f | f in a ensures f in b && b[f] == a[f] {
        EntryOf(a, f, a[f]);
        EntryOf(b, f, a[f]);
      }
      forall f | f in b ensures f in a {
        EntryOf(b, f, b[f]);
        EntryOf(a, f, b[f]);
      }
      assert a.Keys == b.Keys;
    }
  }

  /** The fields and text `putAll` sends for its argument. */
  function EncodedEntries(entries: map<string, Int32>): (toStore: Hash)
    ensures toStore.Keys == entries.Keys
    ensures forall f :: f in toStore ==> DecodeInt(toStore[f]) == Some(entries[f])
    ensures forall f :: f in toStore ==> Canonical(toStore[f])
  {
    var toStore := map f | f in entries :: EncodeInt(entries[f]);
    forall f | f in toStore ensures DecodeInt(toStore[f]) == Some(entries[f]) && Canonical(toStore[f]) {
      RoundTrip(entries[f]);
      EncodedIsCanonical(entries[f]);
    }
    toStore
  }

  /** `putAll`'s loop: the decimal text of every entry, collected into a fresh map
      before the one batched HSET. */
  method EncodeEntries(entries: map<string, Int32>) returns (toStore: Hash)
    ensures toStore == EncodedEntries(entries)
  {
    toStore := map[];
    var pending := entries.Keys;
    while pending != {}
      invariant pending <= entries.Keys
      invariant toStore.Keys == entries.Keys - pending
      invariant forall f :: f in toStore ==> toStore[f] == EncodeInt(entries[f])
      decreases pending
    {
      var f :| f in pending;
      toStore := toStore[f := EncodeInt(entries[f])];
      pending := pending - {f};
    }
    assert toStore == map f | f in entries :: EncodeInt(entries[f]);
  }

  class RedisMap {
    /** The remote hash stored under the adapter's hash key. */
    var store: Hash

    /** What the adapter itself guarantees: it only ever writes `Integer.toString`
        output, so every stored string reads back as the integer it came from. */
    ghost predicate Valid()
      reads this
    {
      forall f :: f in store ==> Canonical(store[f])
    }

    /** A handle on a hash that may already hold fields, written by anyone. */
    constructor (remote: Hash)
      ensures store == remote
    {
      store := remote;
    }

    function Size(): (n: Int32)
      reads this
      ensures |store| <= MaxInt ==> n == |store|
      ensures (|store| - n) % 0x1_0000_0000 == 0
    {
      LongToInt(HLen(store))
    }

    /** `size() == 0`. Redis holds at most 2^32 - 1 fields in one hash, and below that
        bound the answer is exact despite the narrowing in `size()`. */
    function IsEmpty(): (b: bool)
      reads this
      ensures |store| < 0x1_0000_0000 ==> (b <==> store == map[])
    {
      Size() == 0
    }

    function ContainsKey(key: string): (b: bool)
      reads this
      ensures b <==> HGet(store, key).Some?
    {
      HExists(store, key)
    }

    /** `hvals(...).contains(value.toString())`: `text` is the argument's `toString()`. */
    ghost function ContainsValue(text: string): (b: bool)
      reads this
      ensures b <==> exists f :: f in store && store[f] == text
    {
      InValuesOf(store, text);
      text in HVals(store)
    }

    function Get(key: string): (r: Outcome<Option<Int32>>)
      reads this
      ensures r == Ok(None) <==> key !in store
      ensures r.Err? <==> key in store && DecodeInt(store[key]).None?
      ensures r.Err? ==> r.thrown == NumberFormatException
      ensures r.Ok? && r.value.Some? ==> key in store && DecodeInt(store[key]) == r.value
      ensures Valid() ==> r.Ok?
      ensures Valid() && key in store ==> r.value.Some? && EncodeInt(r.value.value) == store[key]
    {
      DecodeReply(HGet(store, key))
    }

    /** `getOrDefault`, inherited from `java.util.Map`: the value when the key is
        present, otherwise the fallback. */
    function GetOrDefault(key: string, fallback: Int32): (r: Outcome<Int32>)
      reads this
      ensures key !in store ==> r == Ok(fallback)
      ensures key in store ==> (r.Ok? <==> Get(key).Ok?)
      ensures key in store && r.Ok? ==> Get(key) == Ok(Some(r.value))
      ensures Get(key).Err? ==> r == Err(Get(key).thrown)
    {
      match Get(key)
      case Err(t) => Err(t)
      case Ok(Some(v)) => Ok(v)
      case Ok(None) => Ok(fallback)
    }

    /** HGET for the old value, then HSET; the old value is decoded only after the
        write, so a malformed old value throws with the new value already stored. */
    method Put(key: string, value: Int32) returns (previous: Outcome<Option<Int32>>)
      modifies this
      ensures store == HSet(old(store), key, EncodeInt(value))
      ensures previous == old(Get(key))
      ensures Get(key) == Ok(Some(value))
      ensures forall f :: f != key ==> Get(f) == old(Get(f))
      ensures |store| == if key in old(store) then old(|store|) else old(|store|) + 1
      ensures old(Valid()) ==> Valid()
    {
      var was := HGet(store, key);
      store := HSet(store, key, EncodeInt(value));
      previous := DecodeReply(was);
      RoundTrip(value);
      EncodedIsCanonical(value);
    }

    /** HGET for the old value, then HDEL. Removing an absent key is not an error. */
    method Remove(key: string) returns (previous: Outcome<Option<Int32>>)
      modifies this
      ensures store == HDel(old(store), key)
      ensures previous == old(Get(key))
      ensures !ContainsKey(key) && Get(key) == Ok(None)
      ensures forall f :: f != key ==> Get(f) == old(Get(f))
      ensures |store| == if key in old(store) then old(|store|) - 1 else old(|store|)
      ensures old(Valid()) ==> Valid()
    {
      var was := HGet(store, key);
      store := HDel(store, key);
      previous := DecodeReply(was);
    }

    /** `remove(key, value)`, inherited from `java.util.Map`: removes the entry only
        when the key currently maps to `value`, and says whether it did. */
    method RemoveEntry(key: string, value: Int32) returns (removed: Outcome<bool>)
      modifies this
      ensures old(Get(key)).Err? ==> removed == Err(old(Get(key)).thrown) && store == old(store)
      ensures old(Get(key)).Ok? ==> removed == Ok(old(Get(key)) == Ok(Some(value)))
      ensures removed == Ok(true) ==> store == HDel(old(store), key)
      ensures removed != Ok(true) ==> store == old(store)
      ensures old(Valid()) ==> Valid()
    {
      var current := Get(key);
      match current {
        case Err(t) =>
          removed := Err(t);
        case Ok(v) =>
          if v == Some(value) {
            var _ := Remove(key);
            removed := Ok(true);
          } else {
            removed := Ok(false);
          }
      }
    }

    /** `putAll` as written: the entries' text in one HSET. For an empty argument that
        HSET carries no pairs, and Redis answers with an error. */
    method PutAll(entries: map<string, Int32>) returns (r: Outcome<()>)
      modifies this
      ensures entries == map[] ==> r == Err(JedisDataException) && store == old(store)
      ensures entries != map[] ==> r == Ok(())
      ensures entries != map[] ==> store == old(store) + EncodedEntries(entries)
      ensures forall f :: f in entries ==> Get(f) == Ok(Some(entries[f]))
      ensures forall f :: f !in entries ==> Get(f) == old(Get(f))
      ensures old(Valid()) ==> Valid()
    {
      var toStore := EncodeEntries(entries);
      match HSetAll(store, toStore) {
        case Some(h) =>
          store := h;
          r := Ok(());
        case None =>
          r := Err(JedisDataException);
      }
    }

    /** `putAll` as `java.util.Map` specifies it: every entry is written, and an empty
        argument changes nothing and succeeds. */
    method PutAllIntended(entries: map<string, Int32>)
      modifies this
      ensures store == old(store) + EncodedEntries(entries)
      ensures forall f :: f in entries ==> Get(f) == Ok(Some(entries[f]))
      ensures forall f :: f !in entries ==> Get(f) == old(Get(f))
      ensures old(Valid()) ==> Valid()
    {
      if entries != map[] {
        var _ := PutAll(entries);
      } else {
        assert EncodedEntries(entries) == map[];
      }
    }

    /** DEL of the hash key: afterwards every read sees an empty map, not an error. */
    method Clear()
      modifies this
      ensures store == Del(old(store))
      ensures Size() == 0 && IsEmpty()
      ensures KeySet() == {} && Values() == Ok(multiset{}) && EntrySet() == Ok({})
      ensures forall f :: Get(f) == Ok(None)
      ensures Valid()
    {
      store := Del(store);
      assert Decoded(store) == map[];
      assert EntriesOf(map[]) == {};
    }

    function KeySet(): (keys: set<string>)
      reads this
      ensures forall f :: f in keys <==> ContainsKey(f)
    {
      HKeys(store)
    }

    /** HVALS, each value parsed; parsing throws on the first malformed value. */
    ghost function Values(): (r: Outcome<multiset<Int32>>)
      reads this
      ensures r.Ok? <==> AllDecode(store)
      ensures r.Err? ==> r.thrown == NumberFormatException
      ensures r.Ok? ==> |r.value| == |store|
      ensures r.Ok? ==> forall x :: r.value[x] == |FieldsHolding(Decoded(store), x)|
    {
      if AllDecode(store) then Ok(ValuesOf(Decoded(store))) else Err(NumberFormatException)
    }

    /** HGETALL, each value parsed into an entry. */
    function EntrySet(): (r: Outcome<set<(string, Int32)>>)
      reads this
      ensures r.Ok? <==> AllDecode(store)
      ensures r.Err? ==> r.thrown == NumberFormatException
      ensures r.Ok? ==> forall f, x: Int32 :: (f, x) in r.value <==> Get(f) == Ok(Some(x))
    {
      var all := HGetAll(store);
      if AllDecode(all) then
        assert forall f, x: Int32 :: (f, x) in EntriesOf(Decoded(all)) <==> Get(f) == Ok(Some(x)) by {
          forall f, x: Int32 ensures (f, x) in EntriesOf(Decoded(all)) <==> Get(f) == Ok(Some(x)) {
            EntryOf(Decoded(all), f, x);
          }
        }
        Ok(EntriesOf(Decoded(all)))
      else
        Err(NumberFormatException)
    }

    /** Equality of entry sets, which for maps is equality of the maps themselves. */
    function Equals(o: Other): (r: Outcome<bool>)
      reads this
      ensures o.NotAMap? ==> r == Ok(false)
      ensures o.MapOf? ==> (r.Ok? <==> AllDecode(store))
      ensures o.MapOf? && r.Ok? ==> (r.value <==> Decoded(store) == o.entries)
      ensures r.Err? ==> r.thrown == NumberFormatException
    {
      match o
      case NotAMap => Ok(false)
      case MapOf(entries) =>
        match EntrySet()
        case Err(t) => Err(t)
        case Ok(mine) =>
          EntriesDetermineMap(Decoded(store), entries);
          Ok(mine == EntriesOf(entries))
    }
  }

  /** For the adapter's own writes, `containsValue` of an integer's text asks whether
      some field reads back as that integer. */
  lemma ContainsValueOfInteger(m: RedisMap, x: Int32)
    requires m.Valid()
    ensures m.ContainsValue(EncodeInt(x)) <==> exists f :: m.Get(f) == Ok(Some(x))
  {
    if m.ContainsValue(EncodeInt(x)) {
      var f :| f in m.store && m.store[f] == EncodeInt(x);
      CanonicalText(m.store[f], x);
      assert m.Get(f) == Ok(Some(x));
    }
    if exists f :: m.Get(f) == Ok(Some(x)) {
      var f :| m.Get(f) == Ok(Some(x));
      CanonicalText(m.store[f], x);
    }
  }

  /** A value occurs among `values()` exactly when some field reads back as it. */
  lemma InValues(m: RedisMap, x: Int32)
    requires AllDecode(m.store)
    ensures x in m.Values().value <==> exists f :: m.Get(f) == Ok(Some(x))
  {
    var d := Decoded(m.store);
    InValuesOf(d, x);
    if x in m.Values().value {
      var f :| f in d && d[f] == x;
      assert m.Get(f) == Ok(Some(x));
    }
    if exists f :: m.Get(f) == Ok(Some(x)) {
      var f :| m.Get(f) == Ok(Some(x));
      assert f in Decoded(m.store) && Decoded(m.store)[f] == x;
    }
  }

  /** On a hash the adapter wrote, no read throws. */
  lemma ValidReadsSucceed(m: RedisMap, key: string, o: Other)
    requires m.Valid()
    ensures m.Get(key).Ok? && m.Values().Ok? && m.EntrySet().Ok? && m.Equals(o).Ok?
  {
  }

  /** On a valid hash the adapter reads back exactly the map it presents. */
  lemma GetOfDecoded(m: RedisMap, key: string)
    requires m.Valid()
    ensures m.Get(key) == if key in Decoded(m.store) then Ok(Some(Decoded(m.store)[key])) else Ok(None)
  {
  }

  /** The repository's size test, on a hash that held anything beforehand; each
      assertion follows from the contracts alone. The steps are split in three so
      that each proof stays small. */
  method SizeSequence(remote: Hash)
  {
    var m := new RedisMap(remote);
    m.Clear();
    assert m.Size() == 0;
    SizeFirstSteps(m);
    SizeGrowSteps(m);
    SizeShrinkSteps(m);
    assert m.Size() == 0;
  }

  /** The size test's first two keys, each adding one field. */
  method SizeFirstSteps(m: RedisMap)
    requires m.store == map[]
    modifies m
    ensures |m.store| == 2 && "1" in m.store && "2" in m.store && "3" !in m.store
  {
    var previous := m.Put("1", 1);
    assert |m.store| == 1 && m.Size() == 1;
    previous := m.Put("2", 2);
    assert |m.store| == 2 && m.Size() == 2;
    assert "1" in m.store;
  }

  /** The size test's third key, put twice: the second put adds no field. */
  method SizeGrowSteps(m: RedisMap)
    requires |m.store| == 2 && "1" in m.store && "2" in m.store && "3" !in m.store
    modifies m
    ensures |m.store| == 3 && "1" in m.store && "2" in m.store && "3" in m.store
  {
    var previous := m.Put("3", 3);
    assert |m.store| == 3 && m.Size() == 3;
    previous := m.Put("3", 3);
    assert m.Size() == 3;
  }

  /** The size test's removals: each key in turn, the size dropping by one each time. */
  method SizeShrinkSteps(m: RedisMap)
    requires |m.store| == 3 && "1" in m.store && "2" in m.store && "3" in m.store
    modifies m
    ensures m.Size() == 0 && m.IsEmpty()
  {
    var previous := m.Remove("3");
    assert |m.store| == 2 && m.Size() == 2;
    previous := m.Remove("2");
    assert |m.store| == 1 && m.Size() == 1;
    previous := m.Remove("1");
  }

  /** The repository's containsValue test, which passes the string "1" and removes
      the entry with `remove(key, value)`. */
  method ContainsValueSequence(remote: Hash)
  {
    var m := new RedisMap(remote);
    m.Clear();
    assert !m.ContainsValue("1");
    var previous := m.Put("1", 1);
    assert EncodeInt(1) == "1";
    assert m.ContainsValue("1");
    var removed := m.RemoveEntry("1", 1);
    assert removed == Ok(true) && m.IsEmpty();
    assert !m.ContainsValue("1");
  }

  /** The repository's test that putAll overwrites fields, through `putAll` as
      written: whatever the hash held under two distinct keys, the call succeeds and
      afterwards they read as the new values. */
  method PutAllSequence(remote: Hash, k1: string, k2: string, w1: Int32, w2: Int32)
    requires k1 != k2
  {
    var m := new RedisMap(remote);
    var entries := map[k1 := w1, k2 := w2];
    assert k1 in entries && k2 in entries;
    var r := m.PutAll(entries);
    assert r == Ok(());
    assert m.Get(k1) == Ok(Some(w1)) && m.Get(k2) == Ok(Some(w2));
  }

  /** Not one of the repository's tests: `putAll` of an empty map, as written, reaches
      Redis as an HSET with no pairs and throws; the corrected operation leaves the
      hash as it was. */
  method EmptyPutAllSequence(remote: Hash)
  {
    var m := new RedisMap(remote);
    var r := m.PutAll(map[]);
    assert r == Err(JedisDataException) && m.store == remote;
    m.PutAllIntended(map[]);
    assert m.store == remote;
  }
}
