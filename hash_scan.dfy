/**
  The cursor scan over a hash's bucket layout (`HScanHashMember`, `HScanKey`).

  The table is a sequence of buckets, each a sequence of (field, value)
  entries; which bucket a field lands in is left open. A cursor is an
  absolute offset into the bucket-order flattening of the table. One call
  converts the cursor to a (bucket, position in bucket) pair, skipping empty
  buckets, collects at most `count` entries from there in bucket order, and
  returns the advanced cursor, or 0 once the last entry of the table has
  been collected.
*/
module HashScan {

  type Entry = (string, string)

  /** Buckets in index order; a bucket is the list of entries it holds. */
  type Table = seq<seq<Entry>>

  /** All entries in bucket order. */
  function Flatten(t: Table): seq<Entry> {
    if t == [] then [] else Flatten(t[..|t| - 1]) + t[|t| - 1]
  }

  /** Field names are unique across all buckets. */
  ghost predicate UniqueFields(t: Table) {
    forall i, j :: 0 <= i < j < |Flatten(t)| ==> Flatten(t)[i].0 != Flatten(t)[j].0
  }

  /** The field -> value map a table holds, as the command handlers see it. */
  ghost function EntriesMap(es: seq<Entry>): map<string, string> {
    if es == [] then map[] else EntriesMap(es[..|es| - 1])[es[|es| - 1].0 := es[|es| - 1].1]
  }

  /** Result of one scan call: the successor cursor and the entries collected. */
  datatype Batch = Batch(cursor: nat, entries: seq<Entry>)

  /**
    Reference definition of one call: the slice of the flattening that starts
    at the cursor and holds at most `count` entries, and the cursor after it,
    or 0 if that slice ends the table.
  */
  function ScanSpec(t: Table, cursor: nat, count: nat): (b: Batch)
    ensures |b.entries| <= count
    ensures cursor >= |Flatten(t)| ==> b == Batch(0, [])
    ensures cursor < |Flatten(t)| ==>
      && cursor + |b.entries| <= |Flatten(t)|
      && b.entries == Flatten(t)[cursor..cursor + |b.entries|]
      && (b.cursor == 0 || b.cursor == cursor + |b.entries|)
      && (b.cursor == 0 <==> (b.entries != [] && cursor + |b.entries| == |Flatten(t)|) || (cursor == 0 && count == 0))
      && (|b.entries| == count || cursor + |b.entries| == |Flatten(t)|)
    ensures count > 0 ==> b.cursor == 0 || cursor < b.cursor < |Flatten(t)|
  {
    var size := |Flatten(t)|;
    if cursor >= size then Batch(0, [])
    else
      var n := if count < size - cursor then count else size - cursor;
      Batch(if n > 0 && cursor + n == size then 0 else cursor + n, Flatten(t)[cursor..cursor + n])
  }

  lemma WholeTable(t: Table)
    ensures t[..|t|] == t
  {
  }

  lemma FlattenStep(t: Table, b: nat)
    requires b < |t|
    ensures Flatten(t[..b + 1]) == Flatten(t[..b]) + t[b]
  {
    assert t[..b + 1][..b] == t[..b];
  }

  lemma {:induction false} FlattenPrefix(t: Table, b: nat)
    requires b <= |t|
    ensures Flatten(t[..b]) <= Flatten(t)
    decreases |t| - b
  {
    if b < |t| {
      FlattenPrefix(t, b + 1);
      FlattenStep(t, b);
    } else {
      assert t[..b] == t;
    }
  }

  /** Entry `i` of bucket `b` sits at offset (entries before bucket b) + i of the flattening. */
  lemma FlattenAt(t: Table, b: nat, i: nat)
    requires b < |t| && i < |t[b]|
    ensures |Flatten(t[..b])| + i < |Flatten(t)|
    ensures Flatten(t)[|Flatten(t[..b])| + i] == t[b][i]
  {
    FlattenStep(t, b);
    FlattenPrefix(t, b + 1);
  }

  /**
    The resume point exists: a cursor below the table size falls inside some
    bucket, so the final `return 0` of the bucket walk is never reached.
  */
  lemma {:induction false} ResumePointExists(t: Table, cursor: nat)
    requires cursor < |Flatten(t)|
    ensures exists b :: 0 <= b < |t| && |Flatten(t[..b])| <= cursor < |Flatten(t[..b])| + |t[b]|
  {
    var n := |t| - 1;
    assert t[..n + 1] == t;
    FlattenStep(t, n);
    if cursor >= |Flatten(t[..n])| {
      assert |Flatten(t[..n])| <= cursor < |Flatten(t[..n])| + |t[n]|;
    } else {
      var b :| 0 <= b < |t[..n]| && |Flatten(t[..n][..b])| <= cursor < |Flatten(t[..n][..b])| + |t[..n][b]| by {
        ResumePointExists(t[..n], cursor);
      }
      assert t[..n][..b] == t[..b];
    }
  }

  /**
    `HScanHashMember`: walk the buckets to the one holding offset `cursor`,
    step to it inside that bucket, then collect entries bucket by bucket.
  */
  method HScanHashMember(t: Table, cursor: nat, count: nat) returns (newCursor: nat, res: seq<Entry>)
    ensures newCursor == ScanSpec(t, cursor, count).cursor
    ensures res == ScanSpec(t, cursor, count).entries
  {
    res := [];
    if cursor >= |Flatten(t)| {
      return 0, res;
    }
    var idx: nat := cursor;
    var bucket := 0;
    while bucket < |t|
      invariant 0 <= bucket <= |t|
      invariant idx + |Flatten(t[..bucket])| == cursor
      invariant res == []
    {
      var bktSize := |t[bucket]|;
      if idx < bktSize {
        // find the position inside the bucket
        var it := 0;
        while idx > 0
          invariant it + idx + |Flatten(t[..bucket])| == cursor
          invariant it + idx < bktSize
        {
          it := it + 1;
          idx := idx - 1;
        }
        newCursor := cursor;
        while |res| < count && it != |t[bucket]|
          invariant bucket < |t| && it < |t[bucket]|
          invariant newCursor == cursor + |res| == |Flatten(t[..bucket])| + it
          invariant |res| <= count
          invariant newCursor <= |Flatten(t)|
          invariant res == Flatten(t)[cursor..newCursor]
        {
          FlattenAt(t, bucket, it);
          assert Flatten(t)[cursor..newCursor + 1] == res + [t[bucket][it]];
          newCursor := newCursor + 1;
          res := res + [t[bucket][it]];
          it := it + 1;
          if it == |t[bucket]| {
            FlattenStep(t, bucket);
            bucket := bucket + 1;
            while bucket < |t|
              invariant bucket <= |t|
              invariant |Flatten(t[..bucket])| == newCursor
            {
              if |t[bucket]| > 0 {
                it := 0;
                break;
              }
              FlattenStep(t, bucket);
              bucket := bucket + 1;
            }
            if bucket == |t| {
              assert t[..bucket] == t;
              return 0, res;
            }
          }
        }
        FlattenAt(t, bucket, it);
        return newCursor, res;
      } else {
        idx := idx - bktSize;
      }
      FlattenStep(t, bucket);
      bucket := bucket + 1;
    }
    WholeTable(t);
    assert false;  // never here
  }

  /**
    `HScanKey`: an empty hash ends the cycle at once; otherwise one bucket
    walk, and its entries are emitted as field, value, field, value, ...
  */
  method HScanKey(t: Table, cursor: nat, count: nat) returns (newCursor: nat, res: seq<string>)
    ensures newCursor == ScanSpec(t, cursor, count).cursor
    ensures |res| == 2 * |ScanSpec(t, cursor, count).entries|
    ensures forall i :: 0 <= i < |ScanSpec(t, cursor, count).entries| ==>
      res[2 * i] == ScanSpec(t, cursor, count).entries[i].0 && res[2 * i + 1] == ScanSpec(t, cursor, count).entries[i].1
  {
    res := [];
    if |Flatten(t)| == 0 {
      return 0, res;
    }
    var iters;
    newCursor, iters := HScanHashMember(t, cursor, count);
    var i := 0;
    while i < |iters|
      invariant 0 <= i <= |iters|
      invariant |res| == 2 * i
      invariant forall k :: 0 <= k < i ==> res[2 * k] == iters[k].0 && res[2 * k + 1] == iters[k].1
    {
      res := res + [iters[i].0, iters[i].1];
      i := i + 1;
    }
  }

  // ---------------------------------------------------------------------
  // The table as the command handlers see it

  /** The fields of the map a table holds are exactly the entries' field names. */
  lemma {:induction false} EntriesMapKeys(es: seq<Entry>)
    ensures EntriesMap(es).Keys == set e | e in es :: e.0
  {
    if es != [] {
      var n := |es| - 1;
      var prefix := es[..n];
      EntriesMapKeys(prefix);
      assert es == prefix + [es[n]];
      assert (set e | e in es :: e.0) == (set e | e in prefix :: e.0) + {es[n].0};
    }
  }

  /** With unique field names, the map a table holds has one field per entry. */
  lemma {:induction false} EntriesMapSize(es: seq<Entry>)
    requires forall i, j :: 0 <= i < j < |es| ==> es[i].0 != es[j].0
    ensures |EntriesMap(es)| == |es|
  {
    if es != [] {
      var n := |es| - 1;
      var prefix := es[..n];
      EntriesMapSize(prefix);
      EntriesMapKeys(prefix);
      assert es[n].0 !in EntriesMap(prefix);
    }
  }

  /** With unique field names, every entry is a field bound to the entry's value. */
  lemma {:induction false} EntriesMapValues(es: seq<Entry>)
    requires forall i, j :: 0 <= i < j < |es| ==> es[i].0 != es[j].0
    ensures forall e :: e in es ==> e.0 in EntriesMap(es) && EntriesMap(es)[e.0] == e.1
  {
    if es != [] {
      var n := |es| - 1;
      var prefix := es[..n];
      EntriesMapValues(prefix);
      assert es == prefix + [es[n]];
      forall e | e in es
        ensures e.0 in EntriesMap(es) && EntriesMap(es)[e.0] == e.1
      {
        if e != es[n] {
          var i :| 0 <= i < |es| && es[i] == e;
          assert i < n && prefix[i] == e;
          assert e.0 != es[n].0;
        }
      }
    }
  }

  /** Every entry of one scan batch is a field of the hash with its current value. */
  lemma ScanEntriesBelong(t: Table, cursor: nat, count: nat)
    requires UniqueFields(t)
    ensures forall e :: e in ScanSpec(t, cursor, count).entries ==>
      e.0 in EntriesMap(Flatten(t)) && EntriesMap(Flatten(t))[e.0] == e.1
  {
    EntriesMapValues(Flatten(t));
    var b := ScanSpec(t, cursor, count);
    forall e | e in b.entries
      ensures e in Flatten(t)
    {
      var i :| 0 <= i < |b.entries| && b.entries[i] == e;
      assert e == Flatten(t)[cursor + i];
    }
  }

  // ---------------------------------------------------------------------
  // A whole scan cycle over an unchanged table

  /**
    After `calls` successive calls that each pass on the cursor the previous
    one returned, starting from 0: the last cursor, and every entry collected
    so far in order.
  */
  ghost function RunCycle(t: Table, count: nat, calls: nat): Batch {
    if calls == 0 then Batch(0, [])
    else
      var prev := RunCycle(t, count, calls - 1);
      var b := ScanSpec(t, prev.cursor, count);
      Batch(b.cursor, prev.entries + b.entries)
  }

  /** While the table is not exhausted, call k has advanced the cursor to k * count. */
  lemma {:induction false} CyclePrefix(t: Table, count: nat, k: nat)
    requires count > 0 && k * count < |Flatten(t)|
    ensures RunCycle(t, count, k) == Batch(k * count, Flatten(t)[..k * count])
  {
    if k > 0 {
      var c := (k - 1) * count;
      assert c == k * count - count;
      CyclePrefix(t, count, k - 1);
      assert Flatten(t)[..c] + Flatten(t)[c..k * count] == Flatten(t)[..k * count];
    }
  }

  /** The number of calls a cycle takes is the ceiling of size / count. */
  lemma CeilingBounds(size: nat, count: nat)
    requires count > 0 && size > 0
    ensures var calls := (size + count - 1) / count;
      calls >= 1 && (calls - 1) * count < size <= calls * count
  {
    var calls := (size + count - 1) / count;
    var r := (size + count - 1) % count;
    assert size + count - 1 == calls * count + r;
    assert (calls - 1) * count == calls * count - count;
  }

  lemma MulMonotone(a: nat, b: nat, c: nat)
    requires a <= b
    ensures a * c <= b * c
  {
  }

  /** The call after which fewer than `count` entries remain collects the rest and returns 0. */
  lemma LastCall(t: Table, count: nat, calls: nat)
    requires count > 0 && calls >= 1
    requires (calls - 1) * count < |Flatten(t)| <= calls * count
    ensures RunCycle(t, count, calls) == Batch(0, Flatten(t))
  {
    var size := |Flatten(t)|;
    var c := (calls - 1) * count;
    assert calls * count == c + count;
    CyclePrefix(t, count, calls - 1);
    var last := ScanSpec(t, c, count);
    assert last == Batch(0, Flatten(t)[c..size]);
    assert Flatten(t)[..c] + Flatten(t)[c..size] == Flatten(t);
  }

  /** Every call before the last one returns a nonzero cursor. */
  lemma EarlyCall(t: Table, count: nat, calls: nat, k: nat)
    requires count > 0 && 1 <= k < calls
    requires (calls - 1) * count < |Flatten(t)|
    ensures RunCycle(t, count, k).cursor != 0
  {
    MulMonotone(k, calls - 1, count);
    MulMonotone(1, k, count);
    CyclePrefix(t, count, k);
  }

  /**
    Full-cycle completeness: with `count > 0` and an unchanged non-empty
    table, the calls started at cursor 0 return a nonzero cursor until call
    ceil(size / count), which returns 0; together they return the whole
    flattening, in order.
  */
  lemma ScanCycle(t: Table, count: nat)
    requires count > 0 && |Flatten(t)| > 0
    ensures var calls := (|Flatten(t)| + count - 1) / count;
      && calls >= 1
      && RunCycle(t, count, calls) == Batch(0, Flatten(t))
      && (forall k :: 1 <= k < calls ==> RunCycle(t, count, k).cursor != 0)
  {
    var calls := (|Flatten(t)| + count - 1) / count;
    CeilingBounds(|Flatten(t)|, count);
    LastCall(t, count, calls);
    forall k | 1 <= k < calls
      ensures RunCycle(t, count, k).cursor != 0
    {
      EarlyCall(t, count, calls, k);
    }
  }

  /**
    With unique fields, one full cycle over an unchanged table returns every
    entry of the table, and none of them twice.
  */
  lemma ScanCycleOnce(t: Table, count: nat)
    requires count > 0 && |Flatten(t)| > 0 && UniqueFields(t)
    ensures var all := RunCycle(t, count, (|Flatten(t)| + count - 1) / count).entries;
      && (forall e :: e in Flatten(t) <==> e in all)
      && (forall i, j :: 0 <= i < j < |all| ==> all[i] != all[j])
  {
    ScanCycle(t, count);
  }
}
