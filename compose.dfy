/** The composition algebra of spying arbitraries: `Do`, `bind` (both forms),
    `record`, `map` and the finalizer `toArbitrary`. Every draw (the plain
    value `b`, or the nested sample `(c2, l2, b)`) is a parameter. */
module Compose {
  import opened Logs

  /** A record-shaped sample: its log is an object of sub-logs and its value
      an object of field values. */
  type Composite<T, V> = Sample<T, Log<T>, map<string, V>>

  /** What the function given to `bind` produced, already drawn: a plain
      value, or a sample of a nested spying arbitrary. */
  datatype Step<T, V> = Plain(b: V) | Spying(inner: Sample<T, Log<T>, V>)

  /** The value a drawn step puts under its field name. */
  function StepValue<T, V>(st: Step<T, V>): V
  {
    match st
    case Plain(b) => b
    case Spying(inner) => inner.value
  }

  /** `m'` is `m` with `k` bound to `v`: one key more (or rebound) and every
      other key kept with its value. */
  ghost predicate Extends<K, U>(m': map<K, U>, m: map<K, U>, k: K, v: U)
  {
    && m'.Keys == m.Keys + {k}
    && m'[k] == v
    && forall j :: j in m && j != k ==> m'[j] == m[j]
  }

  /** `Do`: the no-op reset with empty log and value objects. */
  function Do<T, V>(): (s: Composite<T, V>)
    ensures s.value == map[] && s.log == Fields(map[])
    ensures Cells(s.reset) == {} && Order(s.reset) == []
    ensures Exact(s)
  {
    Sample(NoOp, Fields(map[]), map[])
  }

  /** `bind(name, logKey, f)` on a drawn sample `s`, where `f` drew the nested
      sample `inner = (c2, l2, b)`: the value gets `name: b`, the log gets
      `logKey: l2`, and the reset runs `s`'s reset and then `c2`. */
  function BindAs<T, V>(s: Composite<T, V>, name: string, logKey: string, inner: Sample<T, Log<T>, V>): (r: Composite<T, V>)
    requires s.log.Fields?
    requires name !in s.value
    requires logKey !in s.log.fields
    ensures Extends(r.value, s.value, name, inner.value)
    ensures r.log.Fields? && Extends(r.log.fields, s.log.fields, logKey, inner.log)
    ensures Cells(r.reset) == Cells(s.reset) + Cells(inner.reset)
    ensures Order(r.reset) == Order(s.reset) + Order(inner.reset)
    ensures Covers(s) && Covers(inner) ==> Covers(r)
    ensures Exact(s) && Exact(inner) ==> Exact(r)
  {
    FieldsUpdateCells(s.log.fields, logKey, inner.log);
    Sample(Then(s.reset, inner.reset), Fields(s.log.fields[logKey := inner.log]), s.value[name := inner.value])
  }

  /** `bind(name, f)` on a drawn sample `s`. A plain draw only extends the
      value; a nested spying draw extends the value and the log, both under
      `name`, and chains the resets. The source's types keep `name` out of
      the value keys only; when `name` is also fresh among the log keys the
      reset still truncates exactly the reachable logs, and in any case it
      truncates every one of them. */
  function Bind<T, V>(s: Composite<T, V>, name: string, next: Step<T, V>): (r: Composite<T, V>)
    requires s.log.Fields?
    requires name !in s.value
    ensures Extends(r.value, s.value, name, StepValue(next))
    ensures r.log.Fields?
    ensures next.Plain? ==> r.log == s.log && r.reset == s.reset
    ensures next.Spying? ==> Extends(r.log.fields, s.log.fields, name, next.inner.log)
    ensures next.Spying? ==> Cells(r.reset) == Cells(s.reset) + Cells(next.inner.reset)
    ensures next.Spying? ==> Order(r.reset) == Order(s.reset) + Order(next.inner.reset)
    ensures Covers(s) && (next.Spying? ==> Covers(next.inner)) ==> Covers(r)
    ensures Exact(s) && name !in s.log.fields && (next.Spying? ==> Exact(next.inner)) ==> Exact(r)
  {
    match next
    case Plain(b) =>
      Sample(s.reset, s.log, s.value[name := b])
    case Spying(inner) =>
      FieldsUpdateCells(s.log.fields, name, inner.log);
      Sample(Then(s.reset, inner.reset), Fields(s.log.fields[name := inner.log]), s.value[name := inner.value])
  }

  /** The keys of `Object.entries(s)` are those of an object: pairwise distinct. */
  ghost predicate DistinctKeys<T, V>(entries: seq<(string, Step<T, V>)>)
  {
    forall i, j :: 0 <= i < j < |entries| ==> entries[i].0 != entries[j].0
  }

  /** Every nested spying draw among the entries resets exactly its own logs. */
  ghost predicate AllExact<T, V>(entries: seq<(string, Step<T, V>)>)
  {
    forall i :: 0 <= i < |entries| && entries[i].1.Spying? ==> Exact(entries[i].1.inner)
  }

  /** Every nested spying draw among the entries resets all of its own logs. */
  ghost predicate AllCover<T, V>(entries: seq<(string, Step<T, V>)>)
  {
    forall i :: 0 <= i < |entries| && entries[i].1.Spying? ==> Covers(entries[i].1.inner)
  }

  /** The resets of the spying entries, run in entry order. */
  function SpyOrder<T, V>(entries: seq<(string, Step<T, V>)>): seq<LogCell<T>>
  {
    if entries == [] then []
    else
      var last := entries[|entries| - 1].1;
      SpyOrder(entries[..|entries| - 1]) + (if last.Spying? then Order(last.inner.reset) else [])
  }

  /** The keys of the entries, gathered one entry at a time. */
  ghost function EntryKeys<T, V>(entries: seq<(string, Step<T, V>)>): set<string>
  {
    if entries == [] then {} else EntryKeys(entries[..|entries| - 1]) + {entries[|entries| - 1].0}
  }

  /** The keys of the spying entries, gathered one entry at a time. */
  ghost function SpyKeys<T, V>(entries: seq<(string, Step<T, V>)>): set<string>
  {
    if entries == [] then {}
    else
      var (k, st) := entries[|entries| - 1];
      SpyKeys(entries[..|entries| - 1]) + (if st.Spying? then {k} else {})
  }

  /** `EntryKeys` holds exactly the key of some entry. */
  lemma {:induction false} EntryKeysAre<T, V>(entries: seq<(string, Step<T, V>)>)
    ensures forall k :: k in EntryKeys(entries) <==> exists i :: 0 <= i < |entries| && entries[i].0 == k
  {
    if entries != [] {
      var init := entries[..|entries| - 1];
      EntryKeysAre(init);
      forall k | k in EntryKeys(init)
        ensures exists i :: 0 <= i < |entries| && entries[i].0 == k
      {
        var i :| 0 <= i < |init| && init[i].0 == k;
        assert entries[i] == init[i];
      }
      forall i | 0 <= i < |init|
        ensures entries[i].0 in EntryKeys(init)
      {
        assert entries[i] == init[i];
      }
    }
  }

  /** `SpyKeys` holds exactly the key of some spying entry. */
  lemma {:induction false} SpyKeysAre<T, V>(entries: seq<(string, Step<T, V>)>)
    ensures forall k :: k in SpyKeys(entries) <==> exists i :: 0 <= i < |entries| && entries[i].0 == k && entries[i].1.Spying?
  {
    if entries != [] {
      var init := entries[..|entries| - 1];
      SpyKeysAre(init);
      forall k | k in SpyKeys(init)
        ensures exists i :: 0 <= i < |entries| && entries[i].0 == k && entries[i].1.Spying?
      {
        var i :| 0 <= i < |init| && init[i].0 == k && init[i].1.Spying?;
        assert entries[i] == init[i];
      }
      forall i | 0 <= i < |init| && entries[i].1.Spying?
        ensures entries[i].0 in SpyKeys(init)
      {
        assert entries[i] == init[i];
      }
    }
  }

  /** The last of distinct keys is not among the earlier ones. */
  lemma LastKeyFresh<T, V>(entries: seq<(string, Step<T, V>)>)
    requires DistinctKeys(entries) && entries != []
    ensures DistinctKeys(entries[..|entries| - 1])
    ensures entries[|entries| - 1].0 !in EntryKeys(entries[..|entries| - 1])
  {
    var init := entries[..|entries| - 1];
    EntryKeysAre(init);
    forall i | 0 <= i < |init|
      ensures init[i].0 != entries[|entries| - 1].0
    {
      assert init[i] == entries[i];
    }
  }

  /** `record(s)`: `bind(k, () => v)` folded over `Object.entries(s)` from
      `Do`. Its value object has exactly the entry keys and its log object
      exactly the keys of the spying entries; the lemmas below give what
      each key holds. */
  function RecordOf<T, V>(entries: seq<(string, Step<T, V>)>): (r: Composite<T, V>)
    requires DistinctKeys(entries)
    ensures r.value.Keys == EntryKeys(entries)
    ensures r.log.Fields? && r.log.fields.Keys == SpyKeys(entries)
    ensures r.log.fields.Keys <= r.value.Keys
  {
    if entries == [] then Do()
    else
      var init := entries[..|entries| - 1];
      LastKeyFresh(entries);
      Bind(RecordOf(init), entries[|entries| - 1].0, entries[|entries| - 1].1)
  }

  /** The last entry of a record is bound onto the record of the others,
      under a key fresh there among both value and log keys. */
  lemma RecordOfLast<T, V>(entries: seq<(string, Step<T, V>)>)
    requires DistinctKeys(entries) && entries != []
    ensures DistinctKeys(entries[..|entries| - 1])
    ensures var (k, st) := entries[|entries| - 1];
      var acc := RecordOf(entries[..|entries| - 1]);
      && k !in acc.value
      && k !in acc.log.fields
      && RecordOf(entries) == Bind(acc, k, st)
  {
    LastKeyFresh(entries);
  }

  /** The same step, spelled out on the value and log objects. */
  lemma RecordOfLastFields<T, V>(entries: seq<(string, Step<T, V>)>)
    requires DistinctKeys(entries) && entries != []
    ensures DistinctKeys(entries[..|entries| - 1])
    ensures var (k, st) := entries[|entries| - 1];
      var acc := RecordOf(entries[..|entries| - 1]);
      && RecordOf(entries).value == acc.value[k := StepValue(st)]
      && RecordOf(entries).log.fields == if st.Spying? then acc.log.fields[k := st.inner.log] else acc.log.fields
  {
    RecordOfLast(entries);
    var (k, st) := entries[|entries| - 1];
    var acc := RecordOf(entries[..|entries| - 1]);
    var r := RecordOf(entries);
    assert r.value == acc.value[k := StepValue(st)];
  }

  /** The value object has exactly the keys of the entries. */
  lemma RecordOfValueKeys<T, V>(entries: seq<(string, Step<T, V>)>)
    requires DistinctKeys(entries)
    ensures forall k :: k in RecordOf(entries).value <==> exists i :: 0 <= i < |entries| && entries[i].0 == k
  {
    EntryKeysAre(entries);
  }

  /** The log object has exactly the keys of the spying entries. */
  lemma RecordOfLogKeys<T, V>(entries: seq<(string, Step<T, V>)>)
    requires DistinctKeys(entries)
    ensures forall k :: k in RecordOf(entries).log.fields <==> exists i :: 0 <= i < |entries| && entries[i].0 == k && entries[i].1.Spying?
  {
    SpyKeysAre(entries);
  }

  /** Each entry's key holds the value its entry drew. */
  lemma {:induction false} RecordOfValues<T, V>(entries: seq<(string, Step<T, V>)>)
    requires DistinctKeys(entries)
    ensures forall i :: 0 <= i < |entries| ==>
      && entries[i].0 in RecordOf(entries).value
      && RecordOf(entries).value[entries[i].0] == StepValue(entries[i].1)
  {
    if entries != [] {
      var init := entries[..|entries| - 1];
      RecordOfLastFields(entries);
      RecordOfValues(init);
      var value := RecordOf(entries).value;
      forall i | 0 <= i < |entries| - 1
        ensures entries[i].0 in value && value[entries[i].0] == StepValue(entries[i].1)
      {
        assert init[i] == entries[i];
      }
    }
  }

  /** Each spying entry's key holds the log structure its entry drew. */
  lemma {:induction false} RecordOfLogs<T, V>(entries: seq<(string, Step<T, V>)>)
    requires DistinctKeys(entries)
    ensures forall i :: 0 <= i < |entries| && entries[i].1.Spying? ==>
      && entries[i].0 in RecordOf(entries).log.fields
      && RecordOf(entries).log.fields[entries[i].0] == entries[i].1.inner.log
  {
    if entries != [] {
      var init := entries[..|entries| - 1];
      var n := |entries| - 1;
      RecordOfLastFields(entries);
      RecordOfLogs(init);
      var fields := RecordOf(entries).log.fields;
      forall i | 0 <= i < n && entries[i].1.Spying?
        ensures entries[i].0 in fields && fields[entries[i].0] == entries[i].1.inner.log
      {
        assert init[i] == entries[i];
      }
    }
  }

  /** The reset truncates the spying entries' logs, in entry order. */
  lemma {:induction false} RecordOfOrder<T, V>(entries: seq<(string, Step<T, V>)>)
    requires DistinctKeys(entries)
    ensures Order(RecordOf(entries).reset) == SpyOrder(entries)
  {
    if entries != [] {
      RecordOfLast(entries);
      RecordOfOrder(entries[..|entries| - 1]);
    }
  }

  /** When each spying entry resets exactly its own logs, the record's
      reset truncates exactly the logs reachable from its log object. */
  lemma {:induction false} RecordOfExact<T, V>(entries: seq<(string, Step<T, V>)>)
    requires DistinctKeys(entries) && AllExact(entries)
    ensures Exact(RecordOf(entries))
  {
    if entries != [] {
      var init := entries[..|entries| - 1];
      RecordOfLast(entries);
      assert AllExact(init) by {
        forall i | 0 <= i < |init| && init[i].1.Spying?
          ensures Exact(init[i].1.inner)
        {
          assert init[i] == entries[i];
        }
      }
      RecordOfExact(init);
    }
  }

  /** When each spying entry's reset empties all of its own logs, the
      record's reset empties every log reachable from its log object. */
  lemma {:induction false} RecordOfCovers<T, V>(entries: seq<(string, Step<T, V>)>)
    requires DistinctKeys(entries) && AllCover(entries)
    ensures Covers(RecordOf(entries))
  {
    if entries != [] {
      var init := entries[..|entries| - 1];
      RecordOfLast(entries);
      assert AllCover(init) by {
        forall i | 0 <= i < |init| && init[i].1.Spying?
          ensures Covers(init[i].1.inner)
        {
          assert init[i] == entries[i];
        }
      }
      RecordOfCovers(init);
    }
  }

  /** `map(f)`: the value becomes `f` of it; reset and log are kept. */
  function MapValue<T, L, A, B>(s: Sample<T, L, A>, f: A -> B): (r: Sample<T, L, B>)
    ensures r.reset == s.reset && r.log == s.log
    ensures r.value == f(s.value)
  {
    Sample(s.reset, s.log, f(s.value))
  }

  /** Composing `Do` with a nested sample gives that sample back under the
      chosen keys, with a reset that truncates the same logs in the same
      order. */
  lemma DoIdentity<T, V>(k: string, inner: Sample<T, Log<T>, V>)
    ensures BindAs(Do(), k, k, inner).value == map[k := inner.value]
    ensures BindAs(Do(), k, k, inner).log == Fields(map[k := inner.log])
    ensures Cells(BindAs(Do(), k, k, inner).reset) == Cells(inner.reset)
    ensures Order(BindAs(Do(), k, k, inner).reset) == Order(inner.reset)
    ensures Exact(inner) ==> Exact(BindAs(Do(), k, k, inner))
  {
    var r := BindAs(Do<T, V>(), k, k, inner);
    assert r.value == map[k := inner.value];
    assert r.log.fields == map[k := inner.log];
  }

  /** `toArbitrary`: run the sample's reset once and hand out `(l, a)`. Every
      log the reset names is empty afterwards, so when the reset covers the
      log structure every reachable log starts empty. */
  method ToArbitrary<T, A>(s: Sample<T, Log<T>, A>) returns (l: Log<T>, a: A)
    modifies Cells(s.reset)
    ensures l == s.log && a == s.value
    ensures forall c :: c in Cells(s.reset) ==> c.entries == []
    ensures Covers(s) ==> forall c :: c in LogCells(l) ==> c.entries == []
  {
    RunReset(s.reset);
    l, a := s.log, s.value;
  }
}
