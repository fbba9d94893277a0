/** Call records, the mutable log cells spies write into, and the shape of a
    sample: a reset procedure, a log structure and a value. */
module Logs {

  /** One call record: the argument tuple and the raw sampled result. */
  datatype Spied<I, A> = Spied(args: I, result: A)

  /** The array `rec` of one spy arbitrary: every spy it draws appends to
      it, the samples' resets truncate it in place. */
  class LogCell<T> {
    var entries: seq<T>

    /** The `[]` of `fc.constant([])`, evaluated once per spy arbitrary: a
        fresh, empty log. */
    constructor ()
      ensures entries == []
    {
      entries := [];
    }

    /** `rec.push(e)`: append at the end, keep every earlier entry. */
    method Push(e: T)
      modifies this
      ensures entries == old(entries) + [e]
    {
      entries := entries + [e];
    }

    /** `rec.length = 0`. */
    method Truncate()
      modifies this
      ensures entries == []
    {
      entries := [];
    }
  }

  /** A reset procedure as the closures compose it: the no-op of `Do`, the
      truncation of one spy's log, or "run the first, then the second". */
  datatype Reset<T> = NoOp | Clear(cell: LogCell<T>) | Then(first: Reset<T>, second: Reset<T>)

  /** The log cells a reset truncates. */
  function Cells<T>(r: Reset<T>): set<LogCell<T>>
  {
    match r
    case NoOp => {}
    case Clear(c) => {c}
    case Then(a, b) => Cells(a) + Cells(b)
  }

  /** The order in which a reset truncates its cells. */
  function Order<T>(r: Reset<T>): seq<LogCell<T>>
  {
    match r
    case NoOp => []
    case Clear(c) => [c]
    case Then(a, b) => Order(a) + Order(b)
  }

  /** The order lists exactly the cells the reset truncates. */
  lemma {:induction false} OrderListsCells<T>(r: Reset<T>)
    ensures forall c :: c in Order(r) <==> c in Cells(r)
  {
    match r
    case NoOp =>
    case Clear(_) =>
    case Then(a, b) =>
      OrderListsCells(a);
      OrderListsCells(b);
  }

  /** The cells a reset names already exist (so a later reset that does not
      name them leaves them alone). */
  lemma {:induction false} CellsAllocated<T>(r: Reset<T>)
    ensures forall c :: c in Cells(r) ==> allocated(c)
  {
    match r
    case NoOp =>
    case Clear(_) =>
    case Then(a, b) =>
      CellsAllocated(a);
      CellsAllocated(b);
  }

  /** Runs a reset procedure: every cell it names is emptied, every other
      cell keeps its entries. Because the new state of a cell does not
      depend on its old entries, running a reset twice leaves the same
      state as running it once. */
  method RunReset<T>(r: Reset<T>)
    modifies Cells(r)
    ensures forall c :: c in Cells(r) ==> c.entries == []
    decreases r
  {
    match r
    case NoOp =>
    case Clear(c) =>
      c.Truncate();
    case Then(a, b) =>
      CellsAllocated(a);
      RunReset(a);
      RunReset(b);
  }

  /** A log structure: one spy's log, or an object of named sub-logs. */
  datatype Log<T> = Leaf(cell: LogCell<T>) | Fields(fields: map<string, Log<T>>)

  /** The log cells reachable from a log structure. */
  function LogCells<T>(l: Log<T>): set<LogCell<T>>
  {
    match l
    case Leaf(c) => {c}
    case Fields(m) => set k, c | k in m && c in LogCells(m[k]) :: c
  }

  /** Putting a sub-log under a key adds at most the sub-log's cells; under a
      fresh key it adds exactly them and loses none. */
  lemma FieldsUpdateCells<T>(m: map<string, Log<T>>, k: string, t: Log<T>)
    ensures LogCells(Fields(m[k := t])) <= LogCells(Fields(m)) + LogCells(t)
    ensures k !in m ==> LogCells(Fields(m[k := t])) == LogCells(Fields(m)) + LogCells(t)
  {
    var m' := m[k := t];
    forall c | c in LogCells(Fields(m'))
      ensures c in LogCells(Fields(m)) + LogCells(t)
    {
      var j :| j in m' && c in LogCells(m'[j]);
      if j != k {
        assert j in m && c in LogCells(m[j]);
      }
    }
    if k !in m {
      forall c | c in LogCells(Fields(m))
        ensures c in LogCells(Fields(m'))
      {
        var j :| j in m && c in LogCells(m[j]);
        assert j in m' && m'[j] == m[j];
      }
      forall c | c in LogCells(t)
        ensures c in LogCells(Fields(m'))
      {
        assert k in m' && m'[k] == t;
      }
    }
  }

  /** One sample of a spying arbitrary: `[reset, log, value]`. */
  datatype Sample<T, L, A> = Sample(reset: Reset<T>, log: L, value: A)

  /** The sample's reset empties every log reachable from its log structure. */
  ghost predicate Covers<T, A>(s: Sample<T, Log<T>, A>)
  {
    LogCells(s.log) <= Cells(s.reset)
  }

  /** ...and truncates no log other than those. */
  ghost predicate Exact<T, A>(s: Sample<T, Log<T>, A>)
  {
    LogCells(s.log) == Cells(s.reset)
  }
}
