# Hash type of the key-value store, in Dafny

This project models the hash data type of the store. Each key of the store holds a
typed object. A hash object is a map from field names to string values.

The model has two parts.

- **Command handlers** (`hset`, `hmset`, `hget`, `hmget`, `hgetall`, `hkeys`,
  `hvals`, `hdel`, `hexists`, `hlen`, `hincrby`, `hsetnx`, `hstrlen`) and their
  helpers `_set_hash_force` and `_set_hash_if_notexist`. Each handler first
  resolves its key through the store. `hget`, `hmget`, `hgetall`, `hkeys`,
  `hvals`, `hexists` and `hlen` use `GET_HASH`, which never creates a key.
  `hset`, `hmset`, `hincrby` and `hsetnx` use `GET_OR_SET_HASH`, which creates
  an empty hash for a missing key. `hdel` and `hstrlen` look the key up
  themselves: `hdel` fails the way `GET_HASH` does, and `hstrlen` replies 0.
  Each handler then does a few
  find / insert / erase / overwrite steps on one hash. It returns its error
  code together with the reply it would emit.
- **The cursor scan** (`HScanHashMember`, `HScanKey`). The table is a sequence of
  buckets, and each bucket is a sequence of (field, value) entries. A cursor is
  an offset into the bucket-order flattening of the table. One call does three
  things. It walks the buckets to find the entry at that offset, skipping empty
  buckets. It collects at most `count` entries from there. It returns the
  advanced cursor, or 0 once the table's last entry has been collected. A
  cursor at or past the table size returns 0 and no entries.

Files:

- `store.dfy` (module `Store`): the key store. It is a class `PStore` whose
  field `db` maps each key to `Hash(fields)` or `OtherType`.
- `hash.dfy` (module `Hash`): error codes, replies, key resolution, the two
  field-writing helpers, every handler, and lemmas about the `hmset` fold.
  Handlers that write take `modifies store`. Their contracts give the whole
  new `store.db` in terms of the old one. Read handlers change nothing.
- `hash_scan.dfy` (module `HashScan`): the bucket table and its flattening. It
  also holds `ScanSpec`, the reference definition of one call, which slices
  the flattening. The nested-loop bucket walk is proved equal to `ScanSpec`.
  Lemmas cover the resume point and a whole scan cycle.
- `numeric.dfy` (module `Numeric`): decimal parsing and printing as
  `hincrby` uses them, with proved round trips.
- `hash_properties.dfy` (module `HashProperties`): properties that follow from
  chaining handlers. Examples are read-your-write, and that `hsetnx` never
  overwrites a field.

Where the source needs something this model does not have, it is a parameter
or a concrete stand-in:

- The helpers `Strtol`, `atoi` and `snprintf` are concrete stand-ins, described
  in `numeric.dfy`.
- The bucket a field lands in is whatever the given table says.
- The iteration order of `hgetall`, `hkeys` and `hvals` is chosen freely, and
  the handlers return it as a ghost out-parameter.

The handlers follow the non-TBB branch of each `#if`; the TBB branches do the
same thing to the map. The scan follows the TBB `HScanHashMember`, the only
bucket walk in the file.

## Model

| member | source | states |
|---|---|---|
| `Hash.GetHash` | src/hash.cc:20-26 | The read commands' lookup never creates a key. A missing key gives the not-exist error and a key of another type the wrong-type error. It finds a hash exactly when the key holds one, and then returns its stored fields. |
| `Hash.GetOrSetHash` | src/hash.cc:28-37 | A key holding another type gives the wrong-type error and no change. A missing key gets a new empty hash in the store. An existing hash is returned unchanged. |
| `Hash.SetHashForce` | src/hash.cc:53-63 | Afterwards the field maps to the given value. Every other field is present and valued exactly as before. The size grows by one only if the field was absent. |
| `Hash.SetHashIfNotExist` | src/hash.cc:67-73 | Inserts exactly when the field is absent; the result says whether it inserted. An existing field leaves the map unchanged. |
| `Hash.HSet` | src/hash.cc:75-88 | Replies 1 whether or not the field existed. The key's hash gains or overwrites that one field; the key is created if missing. A wrong-type key gives an error reply and no change. |
| `Hash.HMSet` | src/hash.cc:90-110 | An odd argument count gives the parameter error before the store is looked at, and changes nothing. Otherwise, on a hash or a missing key, all pairs are applied left to right and the reply is OK. |
| `Hash.WritePairs` | src/hash.cc:98-106 | The loop over pairs gives exactly the left-to-right fold `ApplyPairs` of the pairs into the hash. |
| `Hash.HMSetLastWins` | src/hash.cc:99-106 | A field named by several pairs ends up with the value of the last pair that names it. |
| `Hash.HMSetUntouched` | src/hash.cc:99-106 | A field no pair names keeps its presence and its value. |
| `Hash.HGet` | src/hash.cc:112-134 | A missing key gives the not-exist error reply; a key of another type gives the wrong-type error reply. Otherwise the reply is the field's value, or null if the field is absent. |
| `Hash.HMGet` | src/hash.cc:136-161 | Exactly `|params| - 2` elements, in request order: the value for a present field, null for an absent one. Lookup errors as for `hget`. |
| `Hash.Enumerate` | src/hash.cc:169-172 | The range-for over the hash visits every field exactly once. |
| `Hash.HGetAll` | src/hash.cc:163-175 | The declared length is twice the field count. The reply lists each field once, each followed by its value. Lookup errors as for `hget`. |
| `Hash.HKeys` | src/hash.cc:177-188 | One element per field, each field exactly once. Lookup errors as for `hget`. |
| `Hash.HVals` | src/hash.cc:190-201 | One element per field: the value of each field, visited once. Lookup errors as for `hget`. |
| `Hash.HDel` | src/hash.cc:203-230 | A missing key gives the not-exist error reply and a key of another type the wrong-type error reply, never 0. Otherwise every listed field is erased. The reply counts the distinct listed fields that were present. The field count drops by exactly that number. |
| `Hash.DeleteFields` | src/hash.cc:211-226 | The erase loop leaves the hash minus the listed fields. Its counter is the number of distinct listed fields that were present. The map shrinks by that count. |
| `Hash.DelStep` | src/hash.cc:213-225 | One loop step: the erased set grows by the current field. The counter grows by one exactly when that field was still present. |
| `Hash.RemovedCount` | src/hash.cc:219-224 | Erasing a set of fields shrinks a hash by the number of them it held. This is what `hlen` sees after `hdel`. |
| `Hash.HExists` | src/hash.cc:232-254 | Replies 1 when the field is present and 0 when it is not. Lookup errors as for `hget`. |
| `Hash.HLen` | src/hash.cc:256-262 | Replies the number of fields. Lookup errors as for `hget`. |
| `Hash.HIncrBy` | src/hash.cc:264-311 | A stored value that does not parse gives the not-a-number error and leaves the store unchanged. A missing field counts as 0. The delta is read with `atoi`. The sum is stored as decimal text and replied. A missing key is created first. |
| `Hash.IncrField` | src/hash.cc:289-307 | The field-level step of `hincrby`. It fails exactly when the field holds a non-integer, and then leaves the map unchanged. Otherwise the field ends up holding the decimal text of its old value (0 if absent) plus `atoi(delta)`, and the sum is returned. |
| `Hash.HSetNx` | src/hash.cc:364-375 | Replies 1 and inserts when the field is absent. Replies 0 and leaves the existing value when it is present. The key is created if missing. |
| `Hash.HStrLen` | src/hash.cc:377-403 | The reply is always an integer, never an error reply. A failed key lookup replies 0 but still returns the not-exist or wrong-type code. A missing field gives 0; otherwise the reply is the value's length. |
| `Numeric.Show` | src/hash.cc:305-306 | The `%ld` text of a value: for a non-negative value, non-empty digits with no leading zero unless the value is 0. For a negative value, a '-' followed by such digits, never starting with 0. |
| `Numeric.ParseInt` | src/hash.cc:292 | The strict parser accepts exactly an optional sign followed by at least one digit, or all digits, and nothing else. A negative result comes only from a leading '-'. |
| `Numeric.Atoi` | src/hash.cc:293-299 | `atoi` never fails. A negative result comes only from a '-' after the leading white space. On a text that is all digits it gives that text's decimal value. |
| `Numeric.ShowNat` | src/hash.cc:305-306 | The decimal text of a number is non-empty, all digits, and has no leading zero. |
| `Numeric.ShowRoundTrip` | src/hash.cc:289-307 | The text `hincrby` writes back is parsed by the strict parser as the same number. |
| `Numeric.SkipSpaceSuffix` | src/hash.cc:293 | What `atoi` skips is a prefix of its argument made only of white space. What it leaves is empty or starts with a non-space. |
| `Numeric.DigitPrefixLongest` | src/hash.cc:293 | The digits `atoi` reads are the longest run of digits at that point. |
| `Numeric.AtoiShow` | src/hash.cc:293-306 | `atoi` reads the decimal text back as the same number. |
| `Numeric.ParseIntAgreesWithAtoi` | src/hash.cc:292-293 | Wherever the strict parser accepts a text, `atoi` gives the same value. |
| `HashScan.ScanSpec` | src/hash.cc:407-451 | The batch has at most `count` entries and is the slice of the flattening that starts at the cursor. An out-of-range cursor gives 0 and no entries. The new cursor is 0 or cursor + batch size. It is 0 exactly when the batch reaches the last entry or nothing can be collected from cursor 0. With `count > 0` the cursor strictly advances or becomes 0. |
| `HashScan.HScanHashMember` | src/hash.cc:407-451 | The nested bucket walk returns exactly the cursor and entries of `ScanSpec`. The final fall-through at line 450 is proved unreachable. |
| `HashScan.ResumePointExists` | src/hash.cc:412-450 | Every cursor below the table size falls inside some bucket, so the "never here" return cannot be reached. |
| `HashScan.FlattenAt` | src/hash.cc:417-427 | Entry i of bucket b sits at offset (entries in buckets before b) + i of the flattening. |
| `HashScan.HScanKey` | src/hash.cc:455-480 | An empty hash gives 0. Otherwise the cursor is the one `ScanSpec` gives. The output has 2 × batch size strings, alternating field and value, in batch order. |
| `HashScan.CyclePrefix` | src/hash.cc:423-444 | Successive calls from cursor 0 on an unchanged table: while the table is not exhausted, call k returns cursor k × count. All entries collected so far are the first k × count of the flattening. |
| `HashScan.ScanCycle` | src/hash.cc:423-450 | With `count > 0` on an unchanged non-empty table, every call before call ⌈size/count⌉ returns a nonzero cursor. That call returns 0. Together the calls return the whole flattening, in order. |
| `HashScan.ScanCycleOnce` | src/hash.cc:407-451 | With unique field names, one full cycle returns every entry of the table and none twice. |
| `HashScan.EntriesMapKeys` | src/hash.h:21-27 | The fields of the map a bucket table holds are exactly the entries' field names. |
| `HashScan.EntriesMapSize` | src/hash.h:21-27 | With unique field names, the map a table holds has one field per entry, so the handlers' field count is the scan's table size. |
| `HashScan.EntriesMapValues` | src/hash.h:21-27 | With unique field names, every entry is a field of the map, bound to the entry's value. |
| `HashScan.ScanEntriesBelong` | src/hash.cc:474-477 | Every entry of a scan batch is a field of the hash, paired with its current value. |
| `HashProperties.SetThenGet` | src/hash.cc:75-134 | `hget` after `hset` of the same field replies the value written, unless the key holds another type. |
| `HashProperties.DelThenGet` | src/hash.cc:203-254 | After `hdel` of a field, `hget` replies null and `hexists` replies 0. A missing key gives not-exist from both. |
| `HashProperties.SetThenSetNx` | src/hash.cc:364-375 | `hsetnx` on a field `hset` just wrote replies 0, and `hget` still replies the first value. |
| `HashProperties.FailedIncrKeepsValue` | src/hash.cc:289-297 | An increment of a non-integer value replies not-a-number. The store is unchanged and `hget` still replies the old text. |

## Left out

- `hincrbyfloat` (src/hash.cc:313-362): float parsing, float arithmetic and `%f` formatting.
- Concurrency: the TBB concurrent map, its lock-holding `Accessor`, and the I/O
  threads and event loop of src/io_thread.h and src/io_thread.cc. Handlers run
  one at a time on one sequential map.
- Wire encoding of replies (`FormatInt`, `FormatBulk`, `FormatNull`,
  `PreFormatMultiBulk`, `ReplyError`). A reply is the abstract `Reply` value.
  A multi reply's declared length is the length of its item list.
- The store's internals, such as expiration and other object types. The store
  is a map from key to `Hash(fields)` or `OtherType`, with three lookup
  outcomes: ok, not-exist and wrong-type. The store's source is not part of
  this model.
- Update in place: the C++ handlers change the hash object through a pointer. The
  model writes the new map back into the store's entry for the key. Aliasing
  between keys does not arise here.
- `Strtol`, `atoi` and `snprintf("%ld")`: their sources are not part of this
  model. `ParseInt` accepts an optional sign followed by one or more decimal
  digits and nothing else. `Atoi` follows C's `atoi`: leading white space, an
  optional sign, then the longest digit run, with 0 when there are no digits.
  Wherever the real `Strtol` differs from `ParseInt` (other bases, a leading 0
  read as octal, leading white space, a length cap), the difference is not
  modelled. Overflow of `long` and of `atoi`'s `int` is not
  modelled either.
- Hash function and bucket placement (`my_hash`). The bucket layout is an input
  to the scan. The non-TBB `ScanHashMember` is not in the source file and is
  not modelled.
- `HScanHashMember`: the result vector is modelled as starting empty, as
  `HScanKey` always passes it. Appending to a vector that already has entries,
  which would change the `res.size() < count` test, is not modelled.
- `HashScan.HScanKey`: the model returns the strings the call appends. Entries
  already in the caller's vector `res` are not modelled.
- Bytes: every string stands for a byte string, one character per byte, so
  `|v|` is the byte count `hstrlen` replies. No character encoding is modelled.
- `HashScan.ScanCycle`: proved for an unchanged table only. The weaker
  guarantee for a table that changes between calls is not proved: a field
  present throughout is returned at least once, in a bounded number of calls.
  What is proved for every single call is that the cursor either advances, by
  at most `count`, or becomes 0.
- Table size: the model takes the table's size to be the sum of its bucket sizes.
  A `size()` that disagrees with the buckets, as it could while another thread
  changes the table, is not modelled.
- The preprocessor defect at src/hash.cc:82 (`#elif` with no condition). The
  model uses the intended `_set_hash_force` call of line 83.
- Iteration order of `hgetall`, `hkeys` and `hvals`: any order is allowed, so
  the contracts hold for every order the table could use.

`hstrlen` replies 0 when the key lookup fails but still returns the lookup's error code
(src/hash.cc:380-383); `HStrLen` models both the reply and the code.
