// Bulk operations of unordered_dense.h built on erase(iterator), and whole operation
// sequences: the table is a refinement of the finite map.
module RobinHoodBulk {
  import opened Common
  import opened RobinHood

  /** Two lists with distinct keys and the same entries denote the same map. */
  lemma SameEntriesSameMap<K, V>(vs: seq<Entry<K, V>>, ws: seq<Entry<K, V>>)
    requires DistinctKeys(vs) && DistinctKeys(ws)
    requires forall i | 0 <= i < |vs| :: vs[i] in ws
    requires forall i | 0 <= i < |ws| :: ws[i] in vs
    ensures MapOf(vs) == MapOf(ws)
  {
    forall i | 0 <= i < |vs| ensures vs[i].key in MapOf(ws) && MapOf(ws)[vs[i].key] == vs[i].value {
      var j :| 0 <= j < |ws| && ws[j] == vs[i];
      MapOfAt(ws, j);
    }
    forall k | k in KeySet(ws) ensures k in KeySet(vs) {
      var i :| 0 <= i < |ws| && ws[i].key == k;
      var j :| 0 <= j < |vs| && vs[j] == ws[i];
      assert vs[j].key == k;
    }
    MapOfIs(vs, MapOf(ws));
  }

  /**
   * erase(first, last): the front of the range is overwritten from the end of the vector, what
   * is left of it is popped.  Exactly the entries in [first, last) go.
   */
  method EraseRange<K, V>(t: Table<K, V>, first: nat, last: nat)
    requires t.Valid() && first <= last <= |t.values|
    modifies t`values, t`slot, t.buckets
    ensures t.Valid()
    ensures |t.values| == |old(t.values)| - (last - first)
    ensures DistinctKeys(old(t.values)[..first] + old(t.values)[last..])
    ensures t.Contents() == MapOf(old(t.values)[..first] + old(t.values)[last..])
  {
    ghost var vs := t.values;
    var size := |t.values|;
    var mid := first + if last - first < size - last then last - first else size - last;
    ghost var front := EraseBoth(t, first, last, mid);
    RangeGoneMap(vs, front, first, last, mid);
  }

  method EraseBoth<K, V>(t: Table<K, V>, first: nat, last: nat, mid: nat) returns (ghost front: seq<Entry<K, V>>)
    requires t.Valid() && first <= last <= |t.values|
    requires mid == first + if last - first < |t.values| - last then last - first else |t.values| - last
    modifies t`values, t`slot, t.buckets
    ensures t.Valid() && PartlyErased(old(t.values), front, first, mid)
    ensures t.values == front[..|front| - (last - mid)]
  {
    EraseFront(t, first, mid);
    front := t.values;
    PopBack(t, last, mid);
  }

  /** The first loop of erase(first, last), which moves entries from the end forward. */
  method EraseFront<K, V>(t: Table<K, V>, first: nat, mid: nat)
    requires t.Valid() && first <= mid && mid + (mid - first) <= |t.values|
    modifies t`values, t`slot, t.buckets
    ensures t.Valid() && PartlyErased(old(t.values), t.values, first, mid)
  {
    var idx := first;
    while idx != mid
      invariant first <= idx <= mid && t.Valid() && t.buckets == old(t.buckets)
      invariant PartlyErased(old(t.values), t.values, first, idx)
      decreases mid - idx
    {
      ErasedOneMore(old(t.values), t.values, first, idx);
      t.EraseAt(idx);
      idx := idx + 1;
    }
  }

  lemma ErasedOneMore<T>(vs: seq<T>, now: seq<T>, first: nat, idx: nat)
    requires PartlyErased(vs, now, first, idx) && 2 * idx + 2 - first <= |vs|
    ensures idx < |now| && PartlyErased(vs, SwapRemove(now, idx), first, idx + 1)
  {
  }

  /** Its second loop: nothing of the range is left, or the rest of it ends the vector. */
  method PopBack<K, V>(t: Table<K, V>, last: nat, mid: nat)
    requires t.Valid() && mid <= last && (mid == last || |t.values| == last)
    modifies t`values, t`slot, t.buckets
    ensures t.Valid()
    ensures last - mid <= |old(t.values)| && t.values == old(t.values)[..|old(t.values)| - (last - mid)]
  {
    var idx := last;
    while idx != mid
      invariant mid <= idx <= last && t.Valid() && t.buckets == old(t.buckets)
      invariant t.values == old(t.values)[..|old(t.values)| - (last - idx)]
      decreases idx - mid
    {
      idx := idx - 1;
      t.EraseAt(idx);
    }
  }

  /** After erasing from first up to idx: those places hold the last entries, in reverse. */
  ghost predicate PartlyErased<T>(vs: seq<T>, now: seq<T>, first: nat, idx: nat) {
    && first <= idx <= |now| && |now| + (idx - first) == |vs|
    && (forall j | 0 <= j < first :: now[j] == vs[j])
    && (forall j | first <= j < idx :: now[j] == vs[|vs| - 1 - (j - first)])
    && (forall j | idx <= j < |now| :: now[j] == vs[j])
  }

  lemma OnlyRangeGone<T>(vs: seq<T>, front: seq<T>, first: nat, last: nat, mid: nat)
    requires first <= last <= |vs|
    requires mid == first + if last - first < |vs| - last then last - first else |vs| - last
    requires PartlyErased(vs, front, first, mid)
    ensures var rest, now := vs[..first] + vs[last..], front[..|front| - (last - mid)];
            && |now| == |rest|
            && (forall i | 0 <= i < |now| :: now[i] in rest)
            && (forall i | 0 <= i < |rest| :: rest[i] in now)
  {
    var now := front[..|front| - (last - mid)];
    var rest := vs[..first] + vs[last..];
    forall i | 0 <= i < |now| ensures now[i] in rest {
      var at := if i < first then i else if i < mid then |rest| - 1 - (i - first) else i - last + first;
      assert rest[at] == now[i];
    }
    forall i | 0 <= i < |rest| ensures rest[i] in now {
      var at := if i < first then i
                else if |rest| - 1 - i < mid - first then first + |rest| - 1 - i
                else i + last - first;
      assert now[at] == rest[i];
    }
  }

  lemma RangeGoneMap<K, V>(vs: seq<Entry<K, V>>, front: seq<Entry<K, V>>, first: nat, last: nat, mid: nat)
    requires DistinctKeys(vs) && first <= last <= |vs|
    requires mid == first + if last - first < |vs| - last then last - first else |vs| - last
    requires PartlyErased(vs, front, first, mid)
    requires DistinctKeys(front[..|front| - (last - mid)])
    ensures |front| - (last - mid) == |vs| - (last - first)
    ensures DistinctKeys(vs[..first] + vs[last..])
    ensures MapOf(front[..|front| - (last - mid)]) == MapOf(vs[..first] + vs[last..])
  {
    var rest := vs[..first] + vs[last..];
    assert forall i | 0 <= i < |rest| :: rest[i] == vs[if i < first then i else i + (last - first)];
    OnlyRangeGone(vs, front, first, last, mid);
    SameEntriesSameMap(front[..|front| - (last - mid)], rest);
  }

  /** std::erase_if: from back to front, so that the entry swapped in has already been kept. */
  method EraseIf<K, V>(t: Table<K, V>, pred: Entry<K, V> -> bool) returns (count: nat)
    requires t.Valid()
    modifies t`values, t`slot, t.buckets
    ensures t.Valid()
    ensures |t.values| <= |old(t.values)| && count == |old(t.values)| - |t.values|
    ensures t.Contents() == map k | k in old(t.Contents()) && !pred(Entry(k, old(t.Contents())[k])) ::
            old(t.Contents())[k]
  {
    ghost var vs := t.values;
    var oldSize := |t.values|;
    var idx: nat := oldSize;
    while idx > 0
      invariant idx <= |t.values| <= |vs| && t.Valid() && t.buckets == old(t.buckets)
      invariant FilteredFrom(vs, t.values, idx, pred)
    {
      idx := idx - 1;
      EraseIfAt(t, pred, idx, vs);
    }
    FilteredMap(vs, t.values, pred);
    count := oldSize - |t.values|;
  }

  /** One turn of that loop. */
  method EraseIfAt<K, V>(t: Table<K, V>, pred: Entry<K, V> -> bool, idx: nat, ghost vs: seq<Entry<K, V>>)
    requires t.Valid() && FilteredFrom(vs, t.values, idx + 1, pred)
    modifies t`values, t`slot, t.buckets
    ensures t.Valid() && FilteredFrom(vs, t.values, idx, pred) && |t.values| <= |old(t.values)|
  {
    if pred(t.values[idx]) {
      SwapOutKeepsFilter(vs, t.values, idx, pred);
      t.EraseAt(idx);
    } else {
      KeptKeepsFilter(vs, t.values, idx, pred);
    }
  }

  lemma KeptKeepsFilter<T>(vs: seq<T>, now: seq<T>, idx: nat, pred: T -> bool)
    requires FilteredFrom(vs, now, idx + 1, pred) && !pred(now[idx])
    ensures FilteredFrom(vs, now, idx, pred)
  {
    assert now[idx] == now[..idx + 1][idx] == vs[..idx + 1][idx] == vs[idx];
    assert now[..idx] == now[..idx + 1][..idx] == vs[..idx + 1][..idx] == vs[..idx];
  }

  /** Entries before idx are untouched; from idx on exactly those failing the predicate remain. */
  ghost predicate FilteredFrom<T>(vs: seq<T>, now: seq<T>, idx: nat, pred: T -> bool) {
    && idx <= |now| && idx <= |vs|
    && now[..idx] == vs[..idx]
    && (forall j | idx <= j < |now| :: now[j] in vs && !pred(now[j]))
    && (forall j | idx <= j < |vs| && !pred(vs[j]) :: vs[j] in now)
  }

  lemma SwapOutKeepsFilter<T>(vs: seq<T>, now: seq<T>, idx: nat, pred: T -> bool)
    requires idx < |now| && FilteredFrom(vs, now, idx + 1, pred) && pred(now[idx])
    ensures FilteredFrom(vs, SwapRemove(now, idx), idx, pred)
  {
    var r := SwapRemove(now, idx);
    assert forall j | 0 <= j < idx + 1 :: now[j] == now[..idx + 1][j] == vs[..idx + 1][j] == vs[j];
    forall j | idx <= j < |vs| && !pred(vs[j]) ensures vs[j] in r {
      var i :| 0 <= i < |now| && now[i] == vs[j];
      assert i != idx;
      assert r[if i == |now| - 1 then idx else i] == vs[j];
    }
  }

  lemma FilteredMap<K, V>(vs: seq<Entry<K, V>>, now: seq<Entry<K, V>>, pred: Entry<K, V> -> bool)
    requires DistinctKeys(vs) && DistinctKeys(now) && FilteredFrom(vs, now, 0, pred)
    ensures MapOf(now) == map k | k in MapOf(vs) && !pred(Entry(k, MapOf(vs)[k])) :: MapOf(vs)[k]
  {
    forall i | 0 <= i < |now|
      ensures now[i].key in MapOf(vs) && MapOf(vs)[now[i].key] == now[i].value && !pred(now[i])
    {
      var j :| 0 <= j < |vs| && vs[j] == now[i];
      MapOfAt(vs, j);
    }
    forall k | k in KeySet(vs) && !pred(Entry(k, MapOf(vs)[k])) ensures k in KeySet(now) {
      var i :| 0 <= i < |vs| && vs[i].key == k;
      MapOfAt(vs, i);
      assert vs[i] == Entry(k, MapOf(vs)[k]);
      var j :| 0 <= j < |now| && now[j] == vs[i];
      assert now[j].key == k;
    }
    MapOfIs(now, map k | k in MapOf(vs) && !pred(Entry(k, MapOf(vs)[k])) :: MapOf(vs)[k]);
  }

  // ---- Whole operation sequences ----------------------------------------------------

  /** Iterators are positions in the vector. */
  datatype Op<!K, !V> =
    | TryEmplace(key: K, value: V) | Emplace(key: K, value: V) | Erase(key: K) | Find(key: K) | Rehash(count: nat)
    | EraseAt(pos: nat) | EraseRange(first: nat, last: nat)
    | EraseIf(pred: Entry<K, V> -> bool) | Replace(container: seq<Entry<K, V>>)

  datatype Outcome<V> = Inserted(isNew: bool) | Erased(count: nat) | Looked(found: Option<V>) | Done

  /** The operations that name keys, and so do not depend on the order of the vector. */
  predicate Keyed<K, V>(op: Op<K, V>) {
    op.TryEmplace? || op.Emplace? || op.Erase? || op.Find? || op.Rehash?
  }

  /** The iterators are those of a vector of this size. */
  predicate InRange<K, V>(op: Op<K, V>, size: nat) {
    (op.EraseAt? ==> op.pos < size) && (op.EraseRange? ==> op.first <= op.last <= size)
  }

  /** What each operation on keys does to a finite map. */
  function MapStep<K, V>(m: map<K, V>, op: Op<K, V>): (map<K, V>, Outcome<V>)
    requires Keyed(op)
  {
    match op
    case TryEmplace(k, v) => if k in m then (m, Inserted(false)) else (m[k := v], Inserted(true))
    case Emplace(k, v) => if k in m then (m, Inserted(false)) else (m[k := v], Inserted(true))
    case Erase(k) => (m - {k}, Erased(if k in m then 1 else 0))
    case Find(k) => (m, Looked(if k in m then Some(m[k]) else None))
    case Rehash(_) => (m, Done)
  }

  /**
   * What an operation does to the finite map of the vector vs: those on iterators take the entries
   * at their positions away, and replace keeps one entry for each key of the container.
   */
  ghost predicate MapMoves<K, V>(vs: seq<Entry<K, V>>, op: Op<K, V>, ws: seq<Entry<K, V>>, out: Outcome<V>)
    requires DistinctKeys(vs) && DistinctKeys(ws)
  {
    if Keyed(op) then
      (MapOf(ws), out) == MapStep(MapOf(vs), op)
    else if !InRange(op, |vs|) then
      ws == vs && out == Done
    else
      match op
      case EraseAt(i) => MapOf(ws) == MapOf(vs) - {vs[i].key} && out == Done
      case EraseRange(f, l) =>
        && DistinctKeys(vs[..f] + vs[l..]) && MapOf(ws) == MapOf(vs[..f] + vs[l..]) && out == Done
      case EraseIf(pred) =>
        && MapOf(ws) == (map k | k in MapOf(vs) && !pred(Entry(k, MapOf(vs)[k])) :: MapOf(vs)[k])
        && |ws| <= |vs| && out == Erased(|vs| - |ws|)
      case Replace(container) =>
        && KeySet(ws) == KeySet(container) && (forall i | 0 <= i < |ws| :: ws[i] in container) && out == Done
        && ws == Deduped(container, 0) && (DistinctKeys(container) ==> ws == container)
      case _ => true
  }

  /** One operation; one on iterators that are out of range is passed over. */
  method Step<K, V>(t: Table<K, V>, op: Op<K, V>) returns (out: Outcome<V>)
    requires t.Valid() && |t.values| < MAX_ENTRIES
    requires (op.Rehash? ==> op.count <= MAX_ENTRIES) && (op.Replace? ==> |op.container| <= MAX_ENTRIES)
    modifies t, t.buckets
    ensures t.Valid() && (t.buckets == old(t.buckets) || fresh(t.buckets))
    ensures |t.values| <= if op.Replace? then |op.container| else |old(t.values)| + 1
    ensures DistinctKeys(old(t.values)) && DistinctKeys(t.values) && MapMoves(old(t.values), op, t.values, out)
    ensures op.Rehash? ==> op.count <= t.maxBucketCapacity
  {
    if Keyed(op) {
      out := KeyStep(t, op);
    } else {
      out := Done;
      if InRange(op, |t.values|) {
        out := BulkStep(t, op);
      }
    }
  }

  method KeyStep<K, V>(t: Table<K, V>, op: Op<K, V>) returns (out: Outcome<V>)
    requires t.Valid() && |t.values| < MAX_ENTRIES && Keyed(op)
    requires op.Rehash? ==> op.count <= MAX_ENTRIES
    modifies t, t.buckets
    ensures t.Valid() && (t.buckets == old(t.buckets) || fresh(t.buckets))
    ensures |t.values| <= |old(t.values)| + 1
    ensures (t.Contents(), out) == MapStep(old(t.Contents()), op)
    ensures op.Rehash? ==> op.count <= t.maxBucketCapacity
  {
    match op
    case TryEmplace(k, v) =>
      var _, isNew := t.TryEmplace(k, v);
      out := Inserted(isNew);
    case Emplace(k, v) =>
      var _, isNew := t.Emplace(Entry(k, v));
      out := Inserted(isNew);
    case Erase(k) =>
      var count := t.EraseKey(k);
      out := Erased(count);
    case Find(k) =>
      var i := t.Find(k);
      out := Looked(if i < |t.values| then Some(t.values[i].value) else None);
    case Rehash(count) =>
      t.Rehash(count);
      out := Done;
  }

  method BulkStep<K, V>(t: Table<K, V>, op: Op<K, V>) returns (out: Outcome<V>)
    requires t.Valid() && !Keyed(op) && InRange(op, |t.values|)
    requires op.Replace? ==> |op.container| <= MAX_ENTRIES
    modifies t, t.buckets
    ensures t.Valid() && (t.buckets == old(t.buckets) || fresh(t.buckets))
    ensures |t.values| <= if op.Replace? then |op.container| else |old(t.values)|
    ensures DistinctKeys(old(t.values)) && DistinctKeys(t.values) && MapMoves(old(t.values), op, t.values, out)
  {
    out := Done;
    match op
    case EraseAt(i) => t.EraseAt(i);
    case EraseRange(f, l) => EraseRange(t, f, l);
    case EraseIf(pred) =>
      var count := EraseIf(t, pred);
      out := Erased(count);
    case Replace(container) => t.Replace(container);
  }

  /** The vectors before, between and after the operations of a run. */
  ghost predicate Traced<K, V>(trace: seq<seq<Entry<K, V>>>, ops: seq<Op<K, V>>, outs: seq<Outcome<V>>) {
    && |trace| == |ops| + 1 && |outs| == |ops|
    && (forall i | 0 <= i < |trace| :: DistinctKeys(trace[i]))
    && forall i {:trigger ops[i]} | 0 <= i < |ops| :: MapMoves(trace[i], ops[i], trace[i + 1], outs[i])
  }

  /** Refinement: every operation of every sequence answers, and leaves the table, as it would a finite map. */
  method Run<K, V>(t: Table<K, V>, ops: seq<Op<K, V>>)
    returns (outs: seq<Outcome<V>>, ghost trace: seq<seq<Entry<K, V>>>)
    requires t.Valid() && |t.values| + |ops| <= MAX_ENTRIES
    requires forall i | 0 <= i < |ops| ::
               (ops[i].Rehash? ==> ops[i].count <= MAX_ENTRIES)
                   && (ops[i].Replace? ==> |ops[i].container| + |ops| <= MAX_ENTRIES)
    modifies t, t.buckets
    ensures t.Valid() && (t.buckets == old(t.buckets) || fresh(t.buckets))
    ensures Traced(trace, ops, outs) && trace[0] == old(t.values) && trace[|ops|] == t.values
    decreases |ops|
  {
    if |ops| == 0 {
      outs, trace := [], [t.values];
    } else {
      ghost var vs := t.values;
      var out := Step(t, ops[0]);
      var rest, after := Run(t, ops[1..]);
      outs, trace := [out] + rest, [vs] + after;
      TraceLonger(vs, out, after, ops, rest);
    }
  }

  lemma TraceLonger<K,
      V>(vs: seq<Entry<K, V>>, out: Outcome<V>, after: seq<seq<Entry<K, V>>>, ops: seq<Op<K, V>>, rest: seq<Outcome<V>>)
    requires |ops| > 0 && Traced(after, ops[1..], rest) && DistinctKeys(vs) && MapMoves(vs, ops[0], after[0], out)
    ensures Traced([vs] + after, ops, [out] + rest)
  {
    var trace, outs := [vs] + after, [out] + rest;
    forall i {:trigger ops[i]} | 0 <= i < |ops| ensures MapMoves(trace[i], ops[i], trace[i + 1], outs[i]) {
      if i > 0 {
        assert ops[1..][i - 1] == ops[i];
      }
    }
  }

  /** The answers and the last map of a run on a finite map. */
  function MapRun<K, V>(m: map<K, V>, ops: seq<Op<K, V>>): (map<K, V>, seq<Outcome<V>>)
    requires forall i | 0 <= i < |ops| :: Keyed(ops[i])
    decreases |ops|
  {
    if |ops| == 0 then (m, [])
    else
      var (m1, out) := MapStep(m, ops[0]);
      var (m2, outs) := MapRun(m1, ops[1..]);
      (m2, [out] + outs)
  }

  /** A run of operations on keys is the run on a finite map, whatever the order of the vector. */
  lemma {:induction false} KeyedRun<K, V>(trace: seq<seq<Entry<K, V>>>, ops: seq<Op<K, V>>, outs: seq<Outcome<V>>)
    requires Traced(trace, ops, outs) && forall i | 0 <= i < |ops| :: Keyed(ops[i])
    ensures (MapOf(trace[|ops|]), outs) == MapRun(MapOf(trace[0]), ops)
    decreases |ops|
  {
    if |ops| > 0 {
      var after, rest := trace[1..], outs[1..];
      forall i {:trigger ops[1..][i]} | 0 <= i < |ops[1..]|
        ensures MapMoves(after[i], ops[1..][i], after[i + 1], rest[i])
      {
        assert ops[1..][i] == ops[i + 1];
      }
      KeyedRun(after, ops[1..], rest);
      assert outs == [outs[0]] + rest;
      assert MapMoves(trace[0], ops[0], trace[1], outs[0]);
    }
  }
}
