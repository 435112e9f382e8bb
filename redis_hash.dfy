/** One Redis hash (the value stored under a single Redis key) and the hash commands
    the adapter sends, each with the meaning the Redis command reference gives it. */
module RedisHash {
  import opened IntCodec

  /** Field name to stored string. A key that does not exist reads as the empty hash. */
  type Hash = map<string, string>

  /** HGET: the field's value, or a nil reply. */
  function HGet(h: Hash, field: string): Option<string> {
    if field in h then Some(h[field]) else None
  }

  /** HSET with one field/value pair: insert or overwrite. */
  function HSet(h: Hash, field: string, value: string): Hash {
    h[field := value]
  }

  /** HSET with a batch of pairs. The command needs at least one pair (its arity is -4),
      so an empty batch is an error reply, shown here as `None`. */
  function HSetAll(h: Hash, fields: Hash): (r: Option<Hash>)
    ensures r.None? <==> fields == map[]
    ensures r.Some? ==> r.value.Keys == h.Keys + fields.Keys
    ensures r.Some? ==> forall f :: f in fields ==> r.value[f] == fields[f]
    ensures r.Some? ==> forall f :: f in h && f !in fields ==> r.value[f] == h[f]
  {
    if fields == map[] then None else Some(h + fields)
  }

  /** HDEL of one field: no error when it is absent. */
  function HDel(h: Hash, field: string): Hash {
    h - {field}
  }

  /** HEXISTS */
  predicate HExists(h: Hash, field: string) {
    field in h
  }

  /** HLEN: a 64-bit count of the fields. */
  function HLen(h: Hash): nat {
    |h|
  }

  /** HKEYS */
  function HKeys(h: Hash): set<string> {
    h.Keys
  }

  /** HGETALL */
  function HGetAll(h: Hash): Hash {
    h
  }

  /** DEL of the hash's key: the whole hash goes, and later reads see an empty hash. */
  function Del(h: Hash): Hash {
    map[]
  }

  /** What each write means to a later HGET: the written field reads as written,
      and every other field reads as before. */
  lemma HGetAfterWrite(h: Hash, f: string, v: string, g: string)
    ensures HGet(HSet(h, f, v), g) == if g == f then Some(v) else HGet(h, g)
    ensures HGet(HDel(h, f), g) == if g == f then None else HGet(h, g)
    ensures HGet(Del(h), g) == None
    ensures forall fields: Hash :: HSetAll(h, fields).Some? ==>
      HGet(HSetAll(h, fields).value, g) == if g in fields then Some(fields[g]) else HGet(h, g)
  {
  }

  /** The fields of `h` whose value is `v`. */
  ghost function FieldsHolding<V>(h: map<string, V>, v: V): set<string> {
    set f | f in h && h[f] == v
  }

  lemma FieldsHoldingSplit<V>(h: map<string, V>, f: string)
    requires f in h
    ensures forall v ::
      |FieldsHolding(h, v)| == |FieldsHolding(h - {f}, v)| + (if h[f] == v then 1 else 0)
  {
    forall v ensures |FieldsHolding(h, v)| ==
      |FieldsHolding(h - {f}, v)| + (if h[f] == v then 1 else 0)
    {
      var rest := FieldsHolding(h - {f}, v);
      if h[f] == v {
        assert FieldsHolding(h, v) == rest + {f};
        assert f !in rest;
      } else {
        assert FieldsHolding(h, v) == rest;
      }
    }
  }

  /** The values of a map with their multiplicities, in no order: a value occurs as
      often as there are fields holding it. */
  ghost function ValuesOf<V(!new)>(h: map<string, V>): (vs: multiset<V>)
    ensures |vs| == |h|
    ensures forall v :: vs[v] == |FieldsHolding(h, v)|
    decreases |h|
  {
    if h == map[] then
      assert forall v :: FieldsHolding(h, v) == {};
      multiset{}
    else
      var f :| f in h;
      assert |h - {f}| == |h| - 1 by {
        assert (h - {f}).Keys == h.Keys - {f};
      }
      FieldsHoldingSplit(h, f);
      ValuesOf(h - {f}) + multiset{h[f]}
  }

  /** HVALS: the reply is a list whose order Redis does not promise, so the model keeps
      only its multiset. */
  ghost function HVals(h: Hash): multiset<string> {
    ValuesOf(h)
  }

  /** A value occurs in the reply exactly when some field holds it. */
  lemma InValuesOf<V(!new)>(h: map<string, V>, v: V)
    ensures v in ValuesOf(h) <==> exists f :: f in h && h[f] == v
  {
  }
}
