/** The interleaved protocol against the history that forgets nothing. */
module ProtocolHistory {
  import opened Prelude
  import opened Recency
  import opened Tables
  import opened Refinement
  import opened Unbounded
  import opened Clock
  import opened Watcher
  import opened Protocol
  import opened ProtocolTheorems
  import opened StoreInvariant
  import HashInput
  import LruTheorem
  import Trimming

  /** The statements that a run has executed on the store, in order. */
  ghost function Statements(c: Setting, w: World, steps: seq<Step>): seq<Op>
    requires Runs(c, w, steps)
    decreases |steps|
  {
    if steps == [] then []
    else
      var front, s := steps[..|steps| - 1], steps[|steps| - 1];
      var op := StatementOf(c, After(c, w, front), s);
      Statements(c, w, front) + (if op.Some? then [op.value] else [])
  }

  /** What one step means to the user: a capture that is kept or an entry that is restored is used, and
      what is deleted is to be forgotten. */
  ghost function Meaning(c: Setting, w: World, s: Step): seq<Event>
    requires Enabled(c, w, s)
  {
    match s
    case Lookup(id, _) =>
      var r := RowOf(w.store.entries, id);
      if r.Some? then [Used(ItemOf(r.value))] else []
    case Keep(_, _) => [Used(Item(HashOf(c.env, w.watcher.payloads), PayloadBytes(w.watcher.payloads)))]
    case Remove(id) =>
      var r := RowOf(w.store.entries, id);
      if r.Some? then [Forgotten(r.value.hash)] else []
    case Wipe => [Wiped]
    case _ => []
  }

  function ItemOf(r: Row): Item { Item(r.hash, r.size) }

  /** All that a run has used and forgotten. */
  ghost function Memory(c: Setting, w: World, steps: seq<Step>): seq<Event>
    requires Runs(c, w, steps)
    decreases |steps|
  {
    if steps == [] then []
    else Memory(c, w, steps[..|steps| - 1]) + Meaning(c, After(c, w, steps[..|steps| - 1]), steps[|steps| - 1])
  }

  /** On the store, a run of the protocol is a run of statements. */
  lemma {:induction false} StoreRuns(c: Setting, n: U64, m: U64, instant: int, steps: seq<Step>)
    requires Runs(c, Start(n, m, instant), steps)
    ensures RunsTo(Empty(n, m), Statements(c, Start(n, m, instant), steps), After(c, Start(n, m, instant), steps).store)
    decreases |steps|
  {
    if steps != [] {
      var front, s := steps[..|steps| - 1], steps[|steps| - 1];
      var w := After(c, Start(n, m, instant), front);
      StoreRuns(c, n, m, instant, front);
      StepIsStatement(c, w, s);
      match StatementOf(c, w, s)
      case Some(op) =>
        RunsToMore(Empty(n, m), Statements(c, Start(n, m, instant), front), w.store, op, Next(c, w, s).store);
      case None => assert Statements(c, Start(n, m, instant), front) + [] == Statements(c, Start(n, m, instant), front);
    }
  }

  lemma {:induction false} RowOfIsItem(rows: seq<Row>, id: nat)
    ensures ItemWithId(rows, id) == match RowOf(rows, id) case Some(r) => Some(ItemOf(r)) case None => None
  {
    if rows != [] && rows[0].id != id {
      RowOfIsItem(rows[1..], id);
    }
  }

  /** A step means what its statement means. */
  lemma MeaningOfStatement(c: Setting, w: World, s: Step)
    requires Enabled(c, w, s)
    ensures Meaning(c, w, s) == match StatementOf(c, w, s) case Some(op) => EventsOf(w.store, op) case None => []
  {
    match s
    case Lookup(id, _) => RowOfIsItem(w.store.entries, id);
    case Remove(id) => RowOfIsItem(w.store.entries, id);
    case _ =>
  }

  lemma ClockedPart(front: seq<Op>, more: seq<Op>)
    requires Clocked(front + more)
    ensures Clocked(front)
  {
    assert forall i :: 0 <= i < |front| ==> (front + more)[i] == front[i];
  }

  lemma {:induction false} MemoryIsHappened(c: Setting, n: U64, m: U64, instant: int, steps: seq<Step>)
    requires Runs(c, Start(n, m, instant), steps) && Clocked(Statements(c, Start(n, m, instant), steps))
    ensures Memory(c, Start(n, m, instant), steps) == Happened(Empty(n, m), Statements(c, Start(n, m, instant), steps))
    decreases |steps|
  {
    if steps != [] {
      var w0, front, s := Start(n, m, instant), steps[..|steps| - 1], steps[|steps| - 1];
      var w, ops := After(c, w0, front), Statements(c, w0, front);
      var op := StatementOf(c, w, s);
      ClockedPart(ops, if op.Some? then [op.value] else []);
      MemoryIsHappened(c, n, m, instant, front);
      StoreRuns(c, n, m, instant, front);
      ClockedRunIsReplay(n, m, ops, w.store);
      MeaningOfStatement(c, w, s);
      if op.Some? {
        assert (ops + [op.value])[..|ops|] == ops;
      } else {
        assert ops + [] == ops && Memory(c, w0, front) + [] == Memory(c, w0, front);
      }
    }
  }

  /** If the stamps come in the order of the statements, then after any interleaving of restores, captures,
      deletions and reloads the table is a prefix of everything captured and restored and not since
      deleted, most recently used first, within the limits in force; and it is the longest that fits
      exactly when nothing is missing or the next entry would not fit. */
  lemma StoreIsPrefixOfMemory(c: Setting, n: U64, m: U64, instant: int, steps: seq<Step>)
    requires Runs(c, Start(n, m, instant), steps) && Clocked(Statements(c, Start(n, m, instant), steps))
    ensures var h := After(c, Start(n, m, instant), steps).store;
            var full, table := Mru(Memory(c, Start(n, m, instant), steps)), Items(Ranked(h.entries));
            && table <= full && (table == [] || Fits(table, BoundsOf(h)))
            && (table == FitPrefix(full, BoundsOf(h))
                <==> |table| == |full| || !Fits(table + [full[|table|]], BoundsOf(h)))
  {
    var ops, h := Statements(c, Start(n, m, instant), steps), After(c, Start(n, m, instant), steps).store;
    StoreRuns(c, n, m, instant, steps);
    MemoryIsHappened(c, n, m, instant, steps);
    LruTheorem.RunKeepsPrefix(n, m, ops, h);
    LruTheorem.HistoryIsAlwaysAPrefix(n, m, ops, h);
  }

  // ----- a row that no longer describes its payloads

  /** The tables after capturing two types. */
  function TwoTypesStored(c: Setting, n: U64, m: U64, t: int): History {
    var two := HashInput.TwoTypes();
    var e := EntryFor(c.env, two, t);
    History([Row(1, e.hash, e.kind, e.labelText, e.preview, 2, t, t)],
            [PayloadRow(1, 1, two[0]), PayloadRow(2, 1, two[1])], 1, 2, n, m)
  }

  /** The tables after capturing two types and then one in which they are run together. */
  function Overwritten(c: Setting, n: U64, m: U64, t: int, u: int): History {
    var h, f := TwoTypesStored(c, n, m, t), EntryFor(c.env, HashInput.RunTogether(), u);
    h.(entries := [Row(1, h.entries[0].hash, f.kind, f.labelText, f.preview, 5, t, u)])
  }

  lemma WitnessEntries(c: Setting, t: int, u: int)
    ensures EntryFor(c.env, HashInput.TwoTypes(), t).size == 2 && EntryFor(c.env, HashInput.RunTogether(), u).size == 5
    ensures EntryFor(c.env, HashInput.TwoTypes(), t).hash == EntryFor(c.env, HashInput.RunTogether(), u).hash
  {
    HashInput.HashCollisionWitness();
    var two, one := HashInput.TwoTypes(), HashInput.RunTogether();
    assert two[1..] == [two[1]] && [two[1]][1..] == [] && one[1..] == [];
  }

  /** Capturing two types and then one with the two run together as its data, in a store with room, leaves
      one row that says 5 bytes over payload rows of 2: restoring and capturing that entry again is not
      just a touch. */
  lemma OverwrittenRow(c: Setting, n: U64, m: U64, t: int, u: int)
    requires 1 <= AsI64(n) && 5 <= AsI64(m)
    ensures var e, f := EntryFor(c.env, HashInput.TwoTypes(), t), EntryFor(c.env, HashInput.RunTogether(), u);
            var h := Overwritten(c, n, m, t, u);
            && RunsTo(Empty(n, m), [Insert(e), Insert(f)], h)
            && PayloadsOf(h.payloads, 1) == HashInput.TwoTypes() && PayloadBytes(HashInput.TwoTypes()) == 2
            && !Agrees(c, PayloadsOf(h.payloads, 1), h.entries[0])
  {
    var e, f := EntryFor(c.env, HashInput.TwoTypes(), t), EntryFor(c.env, HashInput.RunTogether(), u);
    FirstCapture(c, n, m, t);
    SecondCapture(c, n, m, t, u);
    TwoStatements(Empty(n, m), Insert(e), TwoTypesStored(c, n, m, t), Insert(f), Overwritten(c, n, m, t, u));
    OverwrittenDisagrees(c, n, m, t, u);
  }

  lemma TwoStatements(h: History, p: Op, k: History, q: Op, l: History)
    requires Yields(h, p, k) && Yields(k, q, l)
    ensures RunsTo(h, [p, q], l)
  {
    RunsToMore(h, [], h, p, k);
    RunsToMore(h, [] + [p], k, q, l);
    assert [] + [p] + [q] == [p, q];
  }

  lemma OverwrittenDisagrees(c: Setting, n: U64, m: U64, t: int, u: int)
    ensures var h := Overwritten(c, n, m, t, u);
            && PayloadsOf(h.payloads, 1) == HashInput.TwoTypes() && PayloadBytes(HashInput.TwoTypes()) == 2
            && !Agrees(c, PayloadsOf(h.payloads, 1), h.entries[0])
  {
    var two := HashInput.TwoTypes();
    WitnessEntries(c, u, u);
    TwoPayloadRows(PayloadRow(1, 1, two[0]), PayloadRow(2, 1, two[1]));
    assert PayloadsOf(Overwritten(c, n, m, t, u).payloads, 1) == two;
  }

  lemma TwoPayloadRows(p: PayloadRow, q: PayloadRow)
    requires p.entryId == q.entryId == 1
    ensures PayloadsOf([p, q], 1) == [p.payload, q.payload]
  {
    assert [p, q][1..] == [q] && [q][1..] == [];
    assert PayloadsOf([q], 1) == [q.payload] + PayloadsOf([], 1) == [q.payload];
  }

  lemma FirstCapture(c: Setting, n: U64, m: U64, t: int)
    requires 1 <= AsI64(n) && 5 <= AsI64(m)
    ensures Yields(Empty(n, m), Insert(EntryFor(c.env, HashInput.TwoTypes(), t)), TwoTypesStored(c, n, m, t))
  {
    var e, h := EntryFor(c.env, HashInput.TwoTypes(), t), TwoTypesStored(c, n, m, t);
    WitnessEntries(c, t, t);
    assert PayloadRows(1, 0, e.payloads) == [PayloadRow(1, 1, e.payloads[0]), PayloadRow(2, 1, e.payloads[1])];
    assert Stored(Empty(n, m), e).entries == h.entries && Stored(Empty(n, m), e).payloads == h.payloads;
    OneRowFits(h);
  }

  lemma SecondCapture(c: Setting, n: U64, m: U64, t: int, u: int)
    requires 1 <= AsI64(n) && 5 <= AsI64(m)
    ensures Yields(TwoTypesStored(c, n, m, t),
              Insert(EntryFor(c.env, HashInput.RunTogether(), u)), Overwritten(c, n, m, t, u))
  {
    var f, h := EntryFor(c.env, HashInput.RunTogether(), u), TwoTypesStored(c, n, m, t);
    WitnessEntries(c, t, u);
    assert FindByHash(h.entries, f.hash) == Some(1);
    assert Updated(h.entries, 1, f) == Overwritten(c, n, m, t, u).entries;
    OneRowFits(Overwritten(c, n, m, t, u));
  }

  /** A single row within the limits is not trimmed. */
  lemma OneRowFits(h: History)
    requires |h.entries| == 1 && h.entries[0].id == 1 && h.lastId == 1 && |h.payloads| == 2 && h.lastPayloadId == 2
    requires h.payloads[0].id == 1 && h.payloads[1].id == 2 && h.payloads[0].entryId == h.payloads[1].entryId == 1
    requires 1 <= AsI64(h.maxEntries) && h.entries[0].size <= AsI64(h.maxHistorySize)
    ensures TrimsTo(h, h)
  {
    assert h.entries[0] in h.entries;
    assert WellFormed(h);
    Trimming.TrimmedIsATrim(h);
    assert Items(h.entries)[1..] == [] && TotalSize(Items(h.entries)) == h.entries[0].size;
    Trimming.FittingIsNotTrimmed(h, Trimmed(h));
  }
}
