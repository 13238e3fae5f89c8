/**
  Properties that hold across successive hash commands, derived from the
  handlers' contracts alone: read-your-write, no overwrite by `hsetnx`,
  null after `hdel`, and an increment that fails leaving the value alone.
*/
module HashProperties {
  import opened Store
  import opened Numeric
  import opened Hash

  /** `hget` after `hset` of the same field replies the value written. */
  method SetThenGet(store: PStore, key: string, field: string, value: string) returns (reply: Reply)
    modifies store
    ensures HoldsOther(old(store.db), key) ==> reply == Error(WrongType)
    ensures !HoldsOther(old(store.db), key) ==> reply == Bulk(value)
  {
    var _, _ := HSet(store, ["hset", key, field, value]);
    var _, r := HGet(store, ["hget", key, field]);
    reply := r;
  }

  /** `hget` after `hdel` of a field replies null, and `hexists` 0. */
  method DelThenGet(store: PStore, key: string, field: string) returns (got: Reply, exists_: Reply)
    modifies store
    ensures HoldsHash(old(store.db), key) ==> got == Null && exists_ == Int(0)
    ensures key !in old(store.db) ==> got == Error(NotExist) && exists_ == Error(NotExist)
  {
    var params := ["hdel", key, field];
    assert params[2] == field && field in Listed(params, 2, |params|);
    assert Listed(params, 2, |params|) == {field};
    var _, _ := HDel(store, params);
    var _, r := HGet(store, ["hget", key, field]);
    var _, e := HExists(store, ["hexists", key, field]);
    got, exists_ := r, e;
  }

  /** `hsetnx` on a field `hset` just wrote replies 0 and the first value stays. */
  method SetThenSetNx(store: PStore, key: string, field: string, first: string, second: string)
    returns (nx: Reply, got: Reply)
    modifies store
    ensures !HoldsOther(old(store.db), key) ==> nx == Int(0) && got == Bulk(first)
  {
    var _, _ := HSet(store, ["hset", key, field, first]);
    var _, n := HSetNx(store, ["hsetnx", key, field, second]);
    var _, r := HGet(store, ["hget", key, field]);
    nx, got := n, r;
  }

  /** An increment of a value that is not an integer changes nothing that `hget` can see. */
  method FailedIncrKeepsValue(store: PStore, key: string, field: string, delta: string)
    returns (incr: Reply, got: Reply)
    requires HoldsHash(store.db, key) && field in store.db[key].fields
    requires ParseInt(store.db[key].fields[field]).None?
    modifies store
    ensures incr == Error(NotANumber) && got == Bulk(old(store.db)[key].fields[field])
    ensures store.db == old(store.db)
  {
    var _, i := HIncrBy(store, ["hincrby", key, field, delta]);
    var _, r := HGet(store, ["hget", key, field]);
    incr, got := i, r;
  }
}
