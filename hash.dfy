/**
  The command handlers of the hash (field -> value map) type.

  Every handler receives the command's argument vector `params`, where
  `params[0]` is the command name and `params[1]` the key; the command table
  that dispatches to these handlers checks the arity, which is why each
  handler requires only the arguments it reads. A handler resolves the key
  through the store, performs a few find / insert / erase / overwrite steps on
  one hash, and returns both its error code and the reply it emits.

  A hash is held by value in the store: where the C++ handlers update the hash
  object in place through a pointer, the model writes the updated map back
  into the store's entry for the key.
*/
module Hash {
  import opened Store
  import opened Numeric

  /** The store's error codes as far as these handlers produce them. */
  datatype PError = NoError | NotExist | WrongType | ParamError | NotANumber

  /** The replies the handlers emit, before wire encoding. */
  datatype Reply =
    | Int(n: int)
    | Bulk(s: string)
    | Null
    | Multi(items: seq<Reply>)
    | Ok
    | Error(code: PError)

  predicate HoldsHash(db: map<string, PObject>, key: string) {
    key in db && db[key].Hash?
  }

  predicate HoldsOther(db: map<string, PObject>, key: string) {
    key in db && db[key].OtherType?
  }

  /** The hash a write command works on: the stored one, or a new empty one. */
  function FieldsOf(db: map<string, PObject>, key: string): map<string, string> {
    if HoldsHash(db, key) then db[key].fields else map[]
  }

  datatype Lookup = Found(fields: map<string, string>) | Failed(err: PError)

  /** `GET_HASH`: look a key up as a hash, never creating it. */
  function GetHash(db: map<string, PObject>, key: string): (l: Lookup)
    ensures key !in db ==> l == Failed(NotExist)
    ensures HoldsOther(db, key) ==> l == Failed(WrongType)
    ensures l.Found? <==> HoldsHash(db, key)
    ensures l.Found? ==> l.fields == db[key].fields
  {
    if key !in db then Failed(NotExist)
    else match db[key]
      case Hash(fields) => Found(fields)
      case OtherType => Failed(WrongType)
  }

  /**
    `GET_OR_SET_HASH`: a key holding another type is an error; a missing key
    gets a new empty hash in the store; otherwise the stored hash is used.
  */
  method GetOrSetHash(store: PStore, key: string) returns (err: PError, fields: map<string, string>)
    modifies store
    ensures HoldsOther(old(store.db), key) ==> err == WrongType && store.db == old(store.db)
    ensures !HoldsOther(old(store.db), key) ==>
      && err == NoError
      && fields == FieldsOf(old(store.db), key)
      && store.db == old(store.db)[key := Hash(fields)]
  {
    var lookup := GetHash(store.db, key);
    match lookup
    case Found(h) =>
      err, fields := NoError, h;
    case Failed(e) =>
      if e != NotExist {
        err, fields := e, map[];
        return;
      }
      store.db := store.db[key := Hash(map[])];
      err, fields := NoError, map[];
  }

  /** `_set_hash_force`: overwrite the field if it exists, insert it otherwise. */
  method SetHashForce(hash: map<string, string>, key: string, val: string) returns (r: map<string, string>)
    ensures key in r && r[key] == val
    ensures forall f :: f != key ==> (f in r <==> f in hash)
    ensures forall f :: f != key && f in hash ==> r[f] == hash[f]
    ensures |r| == if key in hash then |hash| else |hash| + 1
  {
    if key in hash {
      r := hash[key := val];
    } else {
      r := hash + map[key := val];
    }
  }

  /** `_set_hash_if_notexist`: insert only a field that is not there yet. */
  method SetHashIfNotExist(hash: map<string, string>, key: string, val: string)
    returns (inserted: bool, r: map<string, string>)
    ensures inserted <==> key !in hash
    ensures inserted ==> r == hash[key := val]
    ensures !inserted ==> r == hash
  {
    if key in hash {
      inserted, r := false, hash;
    } else {
      inserted, r := true, hash + map[key := val];
    }
  }

  // ---------------------------------------------------------------------
  // Write commands

  /** `hset key field value`: always replies 1, whether the field existed or not. */
  method HSet(store: PStore, params: seq<string>) returns (err: PError, reply: Reply)
    requires |params| >= 4
    modifies store
    ensures HoldsOther(old(store.db), params[1]) ==>
      err == WrongType && reply == Error(WrongType) && store.db == old(store.db)
    ensures !HoldsOther(old(store.db), params[1]) ==>
      && err == NoError
      && reply == Int(1)
      && store.db == old(store.db)[params[1] := Hash(FieldsOf(old(store.db), params[1])[params[2] := params[3]])]
  {
    var fields;
    err, fields := GetOrSetHash(store, params[1]);
    if err != NoError {
      reply := Error(err);
      return;
    }
    ghost var before := fields;
    fields := SetHashForce(fields, params[2], params[3]);
    assert fields == before[params[2] := params[3]];
    store.db := store.db[params[1] := Hash(fields)];
    reply := Int(1);
  }

  /**
    The hash after writing the field/value pairs `kvs` into `h` from left to
    right, as `hmset` does.
  */
  function ApplyPairs(h: map<string, string>, kvs: seq<string>): map<string, string>
    requires |kvs| % 2 == 0
  {
    if kvs == [] then h
    else ApplyPairs(h, kvs[..|kvs| - 2])[kvs[|kvs| - 2] := kvs[|kvs| - 1]]
  }

  /**
    `hmset key f1 v1 f2 v2 ...`: an odd argument count is a parameter error
    reported before the key is even looked up; otherwise every pair is
    written in order and the reply is OK.
  */
  method HMSet(store: PStore, params: seq<string>) returns (err: PError, reply: Reply)
    requires |params| >= 1
    modifies store
    ensures |params| % 2 != 0 ==>
      err == ParamError && reply == Error(ParamError) && store.db == old(store.db)
    ensures |params| % 2 == 0 && HoldsOther(old(store.db), params[1]) ==>
      err == WrongType && reply == Error(WrongType) && store.db == old(store.db)
    ensures |params| % 2 == 0 && !HoldsOther(old(store.db), params[1]) ==>
      && err == NoError
      && reply == Ok
      && store.db == old(store.db)[params[1] := Hash(ApplyPairs(FieldsOf(old(store.db), params[1]), params[2..]))]
  {
    if |params| % 2 != 0 {
      err, reply := ParamError, Error(ParamError);
      return;
    }
    var fields;
    err, fields := GetOrSetHash(store, params[1]);
    if err != NoError {
      reply := Error(err);
      return;
    }
    fields := WritePairs(fields, params);
    store.db := store.db[params[1] := Hash(fields)];
    reply := Ok;
  }

  /** The loop of `hmset`: `_set_hash_force` for each pair, left to right. */
  method WritePairs(hash: map<string, string>, params: seq<string>) returns (r: map<string, string>)
    requires |params| >= 2 && |params| % 2 == 0
    ensures r == ApplyPairs(hash, params[2..])
  {
    r := hash;
    var i := 2;
    while i < |params|
      invariant 2 <= i <= |params| && i % 2 == 0
      invariant r == ApplyPairs(hash, params[2..i])
    {
      PairStep(hash, params, i);
      ghost var before := r;
      r := SetHashForce(r, params[i], params[i + 1]);
      PointwiseUpdate(before, params[i], params[i + 1], r);
      i := i + 2;
    }
    assert params[2..i] == params[2..];
  }

  /** One more pair: the fold over it is the fold so far, updated at that pair's field. */
  lemma PairStep(h: map<string, string>, params: seq<string>, i: nat)
    requires 2 <= i && i + 2 <= |params| && i % 2 == 0
    ensures ApplyPairs(h, params[2..i + 2]) == ApplyPairs(h, params[2..i])[params[i] := params[i + 1]]
  {
    assert params[2..i + 2][..i - 2] == params[2..i];
  }

  /** A map that agrees with `h[k := v]` at every field is `h[k := v]`. */
  lemma PointwiseUpdate(h: map<string, string>, k: string, v: string, r: map<string, string>)
    requires k in r && r[k] == v
    requires forall f :: f != k ==> (f in r <==> f in h)
    requires forall f :: f != k && f in h ==> r[f] == h[f]
    ensures r == h[k := v]
  {
  }

  /** The fields named at positions `from` up to `to` of the argument vector. */
  function Listed(params: seq<string>, from: nat, to: nat): set<string>
    requires to <= |params|
  {
    set k | from <= k < to :: params[k]
  }

  /**
    `hdel key f1 f2 ...`: a missing key or a key of another type is an error
    reply, not 0. Otherwise every listed field is erased and the reply counts
    the listed fields that were present, each distinct field once, so the
    hash shrinks by exactly the number replied.
  */
  method HDel(store: PStore, params: seq<string>) returns (err: PError, reply: Reply)
    requires |params| >= 2
    modifies store
    ensures params[1] !in old(store.db) ==>
      err == NotExist && reply == Error(NotExist) && store.db == old(store.db)
    ensures HoldsOther(old(store.db), params[1]) ==>
      err == WrongType && reply == Error(WrongType) && store.db == old(store.db)
    ensures HoldsHash(old(store.db), params[1]) ==>
      var h := old(store.db)[params[1]].fields;
      var listed := Listed(params, 2, |params|);
      && err == NoError
      && reply == Int(|h.Keys * listed|)
      && store.db == old(store.db)[params[1] := Hash(h - listed)]
      && |store.db[params[1]].fields| == |h| - reply.n
  {
    var lookup := GetHash(store.db, params[1]);
    if lookup.Failed? {
      err, reply := lookup.err, Error(lookup.err);
      return;
    }
    assert HoldsHash(store.db, params[1]) && lookup.fields == store.db[params[1]].fields;
    var hash, del := DeleteFields(lookup.fields, params);
    store.db := store.db[params[1] := Hash(hash)];
    err, reply := NoError, Int(del);
  }

  /**
    The loop of `hdel`: erase each listed field that is still present and
    count the erasures.
  */
  method DeleteFields(hash: map<string, string>, params: seq<string>) returns (r: map<string, string>, del: nat)
    requires |params| >= 2
    ensures r == hash - Listed(params, 2, |params|)
    ensures del == |hash.Keys * Listed(params, 2, |params|)|
    ensures |r| == |hash| - del
  {
    r, del := hash, 0;
    var i := 2;
    while i < |params|
      invariant 2 <= i <= |params|
      invariant r == hash - Listed(params, 2, i)
      invariant del == |hash.Keys * Listed(params, 2, i)|
    {
      ListedStep(params, i);
      DelStep(hash, Listed(params, 2, i), params[i], r);
      if params[i] in r {
        r := r - {params[i]};
        del := del + 1;
      }
      i := i + 1;
    }
    RemovedCount(hash, Listed(params, 2, |params|));
  }

  /**
    One more listed field: the hash left so far loses it, and the count of
    present listed fields grows by one exactly when it was still there.
  */
  lemma DelStep(h: map<string, string>, seen: set<string>, p: string, r: map<string, string>)
    requires r == h - seen
    ensures r - {p} == h - (seen + {p})
    ensures |h.Keys * (seen + {p})| == |h.Keys * seen| + if p in r then 1 else 0
    ensures p !in r ==> r == h - (seen + {p})
  {
    EraseMore(h, seen, p);
    CountStep(h, seen, p);
    if p !in r {
      assert r - {p} == r;
    }
  }

  /** The fields listed up to position i + 1 are those up to i plus the one at i. */
  lemma ListedStep(params: seq<string>, i: nat)
    requires 2 <= i < |params|
    ensures Listed(params, 2, i + 1) == Listed(params, 2, i) + {params[i]}
  {
  }

  /** Listing one more field adds one to the present listed fields exactly when it is present and new. */
  lemma CountStep(h: map<string, string>, seen: set<string>, p: string)
    ensures |h.Keys * (seen + {p})| == |h.Keys * seen| + if p in h && p !in seen then 1 else 0
  {
    if p in h && p !in seen {
      assert h.Keys * (seen + {p}) == (h.Keys * seen) + {p};
    } else {
      assert h.Keys * (seen + {p}) == h.Keys * seen;
    }
  }

  /** Erasing one more field after a set of them is erasing the larger set. */
  lemma EraseMore(h: map<string, string>, seen: set<string>, p: string)
    ensures (h - seen) - {p} == h - (seen + {p})
  {
    assert ((h - seen) - {p}).Keys == (h - (seen + {p})).Keys;
  }

  /** Erasing a set of fields shrinks a hash by the number of them it held. */
  lemma RemovedCount(h: map<string, string>, fs: set<string>)
    ensures |h - fs| == |h| - |h.Keys * fs|
  {
    var kept := h.Keys - fs;
    assert (h - fs).Keys == kept;
    assert h.Keys == kept + (h.Keys * fs);
    assert kept !! (h.Keys * fs);
  }

  /**
    `hincrby key field delta`: the stored value must be an integer (else
    not-a-number, and nothing changes); a missing field counts as 0. The
    delta is read with `atoi`, which never fails. The sum is stored back as
    decimal text and replied. The key is created on first use.
  */
  method HIncrBy(store: PStore, params: seq<string>) returns (err: PError, reply: Reply)
    requires |params| >= 4
    modifies store
    ensures HoldsOther(old(store.db), params[1]) ==>
      err == WrongType && reply == Error(WrongType) && store.db == old(store.db)
    ensures !HoldsOther(old(store.db), params[1]) ==>
      var h := FieldsOf(old(store.db), params[1]);
      var f := params[2];
      if f in h && ParseInt(h[f]).None? then
        err == NotANumber && reply == Error(NotANumber) && store.db == old(store.db)
      else
        var n := (if f in h then ParseInt(h[f]).value else 0) + Atoi(params[3]);
        && err == NoError
        && reply == Int(n)
        && store.db == old(store.db)[params[1] := Hash(h[f := Show(n)])]
  {
    var hash;
    err, hash := GetOrSetHash(store, params[1]);
    if err != NoError {
      reply := Error(err);
      return;
    }
    var ok, val, updated := IncrField(hash, params[2], params[3]);
    if !ok {
      assert HoldsHash(old(store.db), params[1]);
      err, reply := NotANumber, Error(NotANumber);
      return;
    }
    store.db := store.db[params[1] := Hash(updated)];
    reply := Int(val);
  }

  /**
    The field-level part of `hincrby`: parse the stored value (a missing
    field counts as 0 and is first created empty), add `atoi(delta)`, and
    write the decimal text of the sum over the field.
  */
  method IncrField(hash: map<string, string>, f: string, delta: string)
    returns (ok: bool, val: int, r: map<string, string>)
    ensures ok <==> !(f in hash && ParseInt(hash[f]).None?)
    ensures !ok ==> r == hash
    ensures ok ==> val == (if f in hash then ParseInt(hash[f]).value else 0) + Atoi(delta)
    ensures ok ==> r == hash[f := Show(val)]
  {
    r := hash;
    if f in r {
      var parsed := ParseInt(r[f]);
      if parsed.Some? {
        val := parsed.value + Atoi(delta);
      } else {
        return false, 0, r;
      }
    } else {
      val := Atoi(delta);
      r := SetHashForce(r, f, "");
      assert r == hash[f := ""];
    }
    // `*str = tmp`: the decimal text replaces the field's value.
    r := r[f := Show(val)];
    ok := true;
  }

  /**
    `hsetnx key field value`: inserts and replies 1 only when the field is
    absent; an existing field is left as it was and the reply is 0.
  */
  method HSetNx(store: PStore, params: seq<string>) returns (err: PError, reply: Reply)
    requires |params| >= 4
    modifies store
    ensures HoldsOther(old(store.db), params[1]) ==>
      err == WrongType && reply == Error(WrongType) && store.db == old(store.db)
    ensures !HoldsOther(old(store.db), params[1]) ==>
      var h := FieldsOf(old(store.db), params[1]);
      && err == NoError
      && (params[2] in h ==> reply == Int(0) && store.db == old(store.db)[params[1] := Hash(h)])
      && (params[2] !in h ==> reply == Int(1) && store.db == old(store.db)[params[1] := Hash(h[params[2] := params[3]])])
  {
    var hash;
    err, hash := GetOrSetHash(store, params[1]);
    if err != NoError {
      reply := Error(err);
      return;
    }
    var inserted;
    inserted, hash := SetHashIfNotExist(hash, params[2], params[3]);
    store.db := store.db[params[1] := Hash(hash)];
    reply := if inserted then Int(1) else Int(0);
  }

  // ---------------------------------------------------------------------
  // Read commands: none of them creates the key or changes the store.

  /** `hget key field`: the value, or null for a missing field. */
  method HGet(store: PStore, params: seq<string>) returns (err: PError, reply: Reply)
    requires |params| >= 3
    ensures params[1] !in store.db ==> err == NotExist && reply == Error(NotExist)
    ensures HoldsOther(store.db, params[1]) ==> err == WrongType && reply == Error(WrongType)
    ensures HoldsHash(store.db, params[1]) ==>
      var h := store.db[params[1]].fields;
      err == NoError && (params[2] in h ==> reply == Bulk(h[params[2]])) && (params[2] !in h ==> reply == Null)
  {
    var lookup := GetHash(store.db, params[1]);
    if lookup.Failed? {
      err, reply := lookup.err, Error(lookup.err);
      return;
    }
    err := NoError;
    if params[2] in lookup.fields {
      reply := Bulk(lookup.fields[params[2]]);
    } else {
      reply := Null;
    }
  }

  /**
    `hmget key f1 f2 ...`: one element per requested field, in request
    order, the value of a present field and null for an absent one.
  */
  method HMGet(store: PStore, params: seq<string>) returns (err: PError, reply: Reply)
    requires |params| >= 2
    ensures params[1] !in store.db ==> err == NotExist && reply == Error(NotExist)
    ensures HoldsOther(store.db, params[1]) ==> err == WrongType && reply == Error(WrongType)
    ensures HoldsHash(store.db, params[1]) ==>
      var h := store.db[params[1]].fields;
      && err == NoError
      && reply.Multi?
      && |reply.items| == |params| - 2
      && forall j :: 0 <= j < |reply.items| ==>
           reply.items[j] == if params[j + 2] in h then Bulk(h[params[j + 2]]) else Null
  {
    var lookup := GetHash(store.db, params[1]);
    if lookup.Failed? {
      err, reply := lookup.err, Error(lookup.err);
      return;
    }
    var hash := lookup.fields;
    var items: seq<Reply> := [];
    var i := 2;
    while i < |params|
      invariant 2 <= i <= |params|
      invariant |items| == i - 2
      invariant forall j :: 0 <= j < |items| ==>
        items[j] == if params[j + 2] in hash then Bulk(hash[params[j + 2]]) else Null
    {
      if params[i] in hash {
        items := items + [Bulk(hash[params[i]])];
      } else {
        items := items + [Null];
      }
      i := i + 1;
    }
    err, reply := NoError, Multi(items);
  }

  /** `order` lists every field of `h` exactly once. */
  ghost predicate IsEnumeration(order: seq<string>, h: map<string, string>) {
    && |order| == |h|
    && (forall i :: 0 <= i < |order| ==> order[i] in h)
    && (forall f :: f in h ==> f in order)
    && (forall i, j :: 0 <= i < j < |order| ==> order[i] != order[j])
  }

  /**
    Visits the fields of `h` in some order, as a range-for over the hash
    does; the order the table happens to use is not modelled, so it is
    chosen freely and returned.
  */
  method Enumerate(h: map<string, string>) returns (order: seq<string>)
    ensures IsEnumeration(order, h)
  {
    var rest := h.Keys;
    order := [];
    while rest != {}
      invariant rest <= h.Keys
      invariant |order| + |rest| == |h|
      invariant forall i :: 0 <= i < |order| ==> order[i] in h && order[i] !in rest
      invariant forall f :: f in h && f !in rest ==> f in order
      invariant forall i, j :: 0 <= i < j < |order| ==> order[i] != order[j]
      decreases |rest|
    {
      var f :| f in rest;
      order := order + [f];
      rest := rest - {f};
    }
  }

  /**
    `hgetall key`: a multi reply whose declared length is twice the field
    count, listing each field followed by its value.
  */
  method HGetAll(store: PStore, params: seq<string>) returns (err: PError, reply: Reply, ghost order: seq<string>)
    requires |params| >= 2
    ensures params[1] !in store.db ==> err == NotExist && reply == Error(NotExist)
    ensures HoldsOther(store.db, params[1]) ==> err == WrongType && reply == Error(WrongType)
    ensures HoldsHash(store.db, params[1]) ==>
      var h := store.db[params[1]].fields;
      && err == NoError
      && reply.Multi?
      && |reply.items| == 2 * |h|
      && IsEnumeration(order, h)
      && forall i :: 0 <= i < |order| ==>
           reply.items[2 * i] == Bulk(order[i]) && reply.items[2 * i + 1] == Bulk(h[order[i]])
  {
    var lookup := GetHash(store.db, params[1]);
    if lookup.Failed? {
      err, reply, order := lookup.err, Error(lookup.err), [];
      return;
    }
    var hash := lookup.fields;
    var fields := Enumerate(hash);
    var items: seq<Reply> := [];
    var i := 0;
    while i < |fields|
      invariant 0 <= i <= |fields|
      invariant |items| == 2 * i
      invariant forall k :: 0 <= k < i ==>
        items[2 * k] == Bulk(fields[k]) && items[2 * k + 1] == Bulk(hash[fields[k]])
    {
      items := items + [Bulk(fields[i]), Bulk(hash[fields[i]])];
      i := i + 1;
    }
    err, reply, order := NoError, Multi(items), fields;
  }

  /** `hkeys key`: every field once, declared length the field count. */
  method HKeys(store: PStore, params: seq<string>) returns (err: PError, reply: Reply, ghost order: seq<string>)
    requires |params| >= 2
    ensures params[1] !in store.db ==> err == NotExist && reply == Error(NotExist)
    ensures HoldsOther(store.db, params[1]) ==> err == WrongType && reply == Error(WrongType)
    ensures HoldsHash(store.db, params[1]) ==>
      var h := store.db[params[1]].fields;
      && err == NoError
      && reply.Multi?
      && |reply.items| == |h|
      && IsEnumeration(order, h)
      && forall i :: 0 <= i < |order| ==> reply.items[i] == Bulk(order[i])
  {
    var lookup := GetHash(store.db, params[1]);
    if lookup.Failed? {
      err, reply, order := lookup.err, Error(lookup.err), [];
      return;
    }
    var fields := Enumerate(lookup.fields);
    var items: seq<Reply> := [];
    var i := 0;
    while i < |fields|
      invariant 0 <= i <= |fields|
      invariant |items| == i
      invariant forall k :: 0 <= k < i ==> items[k] == Bulk(fields[k])
    {
      items := items + [Bulk(fields[i])];
      i := i + 1;
    }
    err, reply, order := NoError, Multi(items), fields;
  }

  /** `hvals key`: the value of every field once, declared length the field count. */
  method HVals(store: PStore, params: seq<string>) returns (err: PError, reply: Reply, ghost order: seq<string>)
    requires |params| >= 2
    ensures params[1] !in store.db ==> err == NotExist && reply == Error(NotExist)
    ensures HoldsOther(store.db, params[1]) ==> err == WrongType && reply == Error(WrongType)
    ensures HoldsHash(store.db, params[1]) ==>
      var h := store.db[params[1]].fields;
      && err == NoError
      && reply.Multi?
      && |reply.items| == |h|
      && IsEnumeration(order, h)
      && forall i :: 0 <= i < |order| ==> reply.items[i] == Bulk(h[order[i]])
  {
    var lookup := GetHash(store.db, params[1]);
    if lookup.Failed? {
      err, reply, order := lookup.err, Error(lookup.err), [];
      return;
    }
    var hash := lookup.fields;
    var fields := Enumerate(hash);
    var items: seq<Reply> := [];
    var i := 0;
    while i < |fields|
      invariant 0 <= i <= |fields|
      invariant |items| == i
      invariant forall k :: 0 <= k < i ==> items[k] == Bulk(hash[fields[k]])
    {
      items := items + [Bulk(hash[fields[i]])];
      i := i + 1;
    }
    err, reply, order := NoError, Multi(items), fields;
  }

  /** `hexists key field`: 1 when the field is present, 0 otherwise. */
  method HExists(store: PStore, params: seq<string>) returns (err: PError, reply: Reply)
    requires |params| >= 3
    ensures params[1] !in store.db ==> err == NotExist && reply == Error(NotExist)
    ensures HoldsOther(store.db, params[1]) ==> err == WrongType && reply == Error(WrongType)
    ensures HoldsHash(store.db, params[1]) ==>
      err == NoError && reply == Int(if params[2] in store.db[params[1]].fields then 1 else 0)
  {
    var lookup := GetHash(store.db, params[1]);
    if lookup.Failed? {
      err, reply := lookup.err, Error(lookup.err);
      return;
    }
    err := NoError;
    if params[2] in lookup.fields {
      reply := Int(1);
    } else {
      reply := Int(0);
    }
  }

  /** `hlen key`: the number of fields. */
  method HLen(store: PStore, params: seq<string>) returns (err: PError, reply: Reply)
    requires |params| >= 2
    ensures params[1] !in store.db ==> err == NotExist && reply == Error(NotExist)
    ensures HoldsOther(store.db, params[1]) ==> err == WrongType && reply == Error(WrongType)
    ensures HoldsHash(store.db, params[1]) ==>
      err == NoError && reply == Int(|store.db[params[1]].fields|)
  {
    var lookup := GetHash(store.db, params[1]);
    if lookup.Failed? {
      err, reply := lookup.err, Error(lookup.err);
      return;
    }
    err, reply := NoError, Int(|lookup.fields|);
  }

  /**
    `hstrlen key field`: the length of the field's value. A failed key lookup
    still returns its error code, but the reply is 0 and never an error
    reply; a missing field is 0 too.
  */
  method HStrLen(store: PStore, params: seq<string>) returns (err: PError, reply: Reply)
    requires |params| >= 3
    ensures reply.Int? && reply.n >= 0
    ensures params[1] !in store.db ==> err == NotExist && reply == Int(0)
    ensures HoldsOther(store.db, params[1]) ==> err == WrongType && reply == Int(0)
    ensures HoldsHash(store.db, params[1]) ==>
      var h := store.db[params[1]].fields;
      err == NoError && reply == Int(if params[2] in h then |h[params[2]]| else 0)
  {
    var lookup := GetHash(store.db, params[1]);
    if lookup.Failed? {
      err, reply := lookup.err, Int(0);
      return;
    }
    err := NoError;
    if params[2] !in lookup.fields {
      reply := Int(0);
    } else {
      reply := Int(|lookup.fields[params[2]]|);
    }
  }

  // ---------------------------------------------------------------------
  // Properties of the pair-writing fold used by hmset

  /** The last pair that names a field decides its value. */
  lemma {:induction false} HMSetLastWins(h: map<string, string>, kvs: seq<string>, j: nat)
    requires |kvs| % 2 == 0 && j % 2 == 0 && j < |kvs|
    requires forall k :: j < k < |kvs| && k % 2 == 0 ==> kvs[k] != kvs[j]
    ensures kvs[j] in ApplyPairs(h, kvs) && ApplyPairs(h, kvs)[kvs[j]] == kvs[j + 1]
  {
    var n := |kvs|;
    if j < n - 2 {
      var prefix := kvs[..n - 2];
      assert kvs[n - 2] != kvs[j];
      HMSetLastWins(h, prefix, j);
    }
  }

  /** A field no pair names keeps its old presence and value. */
  lemma {:induction false} HMSetUntouched(h: map<string, string>, kvs: seq<string>, f: string)
    requires |kvs| % 2 == 0
    requires forall k :: 0 <= k < |kvs| && k % 2 == 0 ==> kvs[k] != f
    ensures f in ApplyPairs(h, kvs) <==> f in h
    ensures f in h ==> ApplyPairs(h, kvs)[f] == h[f]
  {
    var n := |kvs|;
    if n > 0 {
      assert kvs[n - 2] != f;
      HMSetUntouched(h, kvs[..n - 2], f);
    }
  }
}
