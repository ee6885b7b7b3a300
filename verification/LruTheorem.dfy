/** The bounded table is always a fitting prefix of the full history of uses. */
module LruTheorem {
  import opened Prelude
  import opened Recency
  import opened Tables
  import opened Ranking
  import opened Trimming
  import opened Refinement
  import opened Unbounded
  import opened Clock

  /** The limits in force after the run. */
  function FinalBounds(b: Bounds, ops: seq<Op>): Bounds
    decreases |ops|
  {
    if ops == [] then b
    else
      match ops[|ops| - 1]
      case SetLimits(n, m) => EffectiveBounds(n, m)
      case _ => FinalBounds(b, ops[..|ops| - 1])
  }

  /** Only `SetLimits` changes the limits. */
  lemma ApplyBounds(h: History, op: Op)
    ensures BoundsOf(Apply(h, op)) ==
            if op.SetLimits? then EffectiveBounds(op.maxEntries, op.maxHistorySize) else BoundsOf(h)
  {
  }

  lemma RunGrows(h0: History, b: Bounds, front: seq<Op>, op: Op)
    ensures Replay(h0, front + [op]) == Apply(Replay(h0, front), op)
    ensures Happened(h0, front + [op]) == Happened(h0, front) + EventsOf(Replay(h0, front), op)
    ensures FinalBounds(b, front + [op]) ==
            if op.SetLimits? then EffectiveBounds(op.maxEntries, op.maxHistorySize) else FinalBounds(b, front)
  {
    assert (front + [op])[..|front|] == front;
  }

  // ----- runs of any statements

  predicate PrefixWithin(table: seq<Item>, events: seq<Event>, b: Bounds) {
    table <= Mru(events) && (table == [] || Fits(table, b))
  }

  /** A prefix of everything remembered, within the limits. */
  ghost predicate IsPrefix(h: History, events: seq<Event>) {
    && WellFormed(h) && DistinctStamps(h.entries)
    && PrefixWithin(Items(Ranked(h.entries)), events, BoundsOf(h))
  }

  lemma TrimKeepsPrefix(l: History, events: seq<Event>)
    requires WellFormed(l) && DistinctStamps(l.entries) && Items(Ranked(l.entries)) <= Mru(events)
    ensures IsPrefix(Trimmed(l), events)
  {
    RetainKeepsWellFormed(l, Ids(Ranked(l.entries)[..KeptCount(l.entries, BoundsOf(l))]));
    RankedTrimmed(l);
    FitPrefixShortens(Items(Ranked(l.entries)), Mru(events), BoundsOf(l));
  }

  lemma InsertKeepsPrefix(h: History, events: seq<Event>, e: NewEntry)
    requires IsPrefix(h, events) && StampsBelow(h.entries, e.createdAt)
    ensures IsPrefix(Inserted(h, e), events + [Used(Item(e.hash, e.size))])
  {
    var x := Item(e.hash, e.size);
    StoredKeepsWellFormed(h, e);
    StoredPromotes(h, e);
    PromoteKeepsPrefix(Items(Ranked(h.entries)), Mru(events), x);
    MruAppend(events, Used(x));
    TrimKeepsPrefix(Stored(h, e), events + [Used(x)]);
  }

  lemma TouchKeepsPrefix(h: History, events: seq<Event>, k: nat, now: int)
    requires IsPrefix(h, events) && StampsBelow(h.entries, now) && k < |h.entries|
    ensures IsPrefix(Touched(h, h.entries[k].id, now), events + [Used(Item(h.entries[k].hash, h.entries[k].size))])
  {
    var x, id := Item(h.entries[k].hash, h.entries[k].size), h.entries[k].id;
    assert PrefixWithin(Items(Ranked(Touched(h, id, now).entries)), events + [Used(x)], BoundsOf(h)) by {
      ItemIsRanked(h.entries, k);
      RankedOnce(h);
      PromotedPrefix(Items(Ranked(h.entries)), events, x, BoundsOf(h));
      TouchedPromotes(h, k, now);
    }
    TouchedDistinct(h, id, now);
    RewriteKeepsWellFormed(h, Restamped(h.entries, id, now));
  }

  lemma RankedOnce(h: History)
    requires WellFormed(h) && DistinctStamps(h.entries)
    ensures Once(Items(Ranked(h.entries)))
  {
    RankedNewestFirst(h.entries);
    forall r | r in Ranked(h.entries) ensures r in h.entries {
      RankedMembers(h.entries, r);
    }
    ItemsDiffer(h.entries, Ranked(h.entries));
  }

  lemma PromotedPrefix(f: seq<Item>, events: seq<Event>, x: Item, b: Bounds)
    requires PrefixWithin(f, events, b) && x in f && Once(f)
    ensures PrefixWithin(Promote(f, x), events + [Used(x)], b)
  {
    PromotePresent(f, x, x);
    PromoteKeepsPrefix(f, Mru(events), x);
    MruAppend(events, Used(x));
  }

  lemma ItemIsRanked(rows: seq<Row>, k: nat)
    requires k < |rows|
    ensures Item(rows[k].hash, rows[k].size) in Items(Ranked(rows))
  {
    var i := PlaceInRanking(rows, k);
    assert Items(Ranked(rows))[i] == Item(rows[k].hash, rows[k].size);
  }

  lemma PlaceInRanking(rows: seq<Row>, k: nat) returns (i: nat)
    requires k < |rows|
    ensures i < |Ranked(rows)| && Ranked(rows)[i] == rows[k]
  {
    RankedMembers(rows, rows[k]);
    i :| 0 <= i < |Ranked(rows)| && Ranked(rows)[i] == rows[k];
  }

  /** Deleting a row removes its item from the ranking. */
  lemma DeletedRemoves(h: History, k: nat)
    requires WellFormed(h) && DistinctStamps(h.entries) && k < |h.entries|
    ensures DistinctStamps(Deleted(h, h.entries[k].id).entries)
    ensures Items(Ranked(Deleted(h, h.entries[k].id).entries)) == Remove(Items(Ranked(h.entries)), h.entries[k].hash)
  {
    var rows, id := h.entries, h.entries[k].id;
    var i := PlaceInRanking(rows, k);
    RankedNewestFirst(rows);
    RankedOnce(h);
    WhereKeepsDistinct(rows, Ids(rows) - {id});
    WithoutRow(rows, Ranked(rows), i);
    RankedIs(Where(rows, Ids(rows) - {id}), Ranked(rows)[..i] + Ranked(rows)[i + 1..]);
    ItemsWithout(Ranked(rows), i);
  }

  lemma ItemsWithout(order: seq<Row>, i: nat)
    requires i < |order| && Once(Items(order))
    ensures Items(order[..i] + order[i + 1..]) == Remove(Items(order), order[i].hash)
  {
    RemoveAt(Items(order), i);
    assert Items(order)[..i] + Items(order)[i + 1..] == Items(order[..i] + order[i + 1..]);
  }

  lemma WithoutRow(rows: seq<Row>, order: seq<Row>, i: nat)
    requires IdsAscend(rows) && NewestFirst(order) && multiset(order) == multiset(rows) && i < |order|
    ensures NewestFirst(order[..i] + order[i + 1..])
    ensures forall r :: r in order[..i] + order[i + 1..] <==> r in Where(rows, Ids(rows) - {order[i].id})
  {
    PermutationFacts(order, rows);
    WhereMembers(rows, Ids(rows) - {order[i].id});
    forall r ensures r in order[..i] + order[i + 1..] <==> r in rows && r.id != order[i].id {
      RestMembers(rows, order, i, r);
    }
  }

  lemma DeleteKeepsPrefix(h: History, events: seq<Event>, k: nat)
    requires IsPrefix(h, events) && k < |h.entries|
    ensures IsPrefix(Deleted(h, h.entries[k].id), events + [Forgotten(h.entries[k].hash)])
  {
    var f, hash := Items(Ranked(h.entries)), h.entries[k].hash;
    RetainKeepsWellFormed(h, Ids(h.entries) - {h.entries[k].id});
    DeletedRemoves(h, k);
    RemoveKeepsPrefix(f, Mru(events), hash);
    RemoveShrinks(f, hash);
    MruAppend(events, Forgotten(hash));
  }

  lemma ClearKeepsPrefix(h: History, events: seq<Event>)
    requires IsPrefix(h, events)
    ensures IsPrefix(Cleared(h), events + [Wiped])
  {
    NothingKept(h);
    MruAppend(events, Wiped);
  }

  lemma DeleteMissing(h: History, id: nat)
    requires WellFormed(h) && id !in Ids(h.entries)
    ensures Deleted(h, id) == h
  {
    assert Ids(h.entries) - {id} == Ids(h.entries);
    RetainAll(h);
  }

  lemma StepKeepsPrefix(h: History, events: seq<Event>, op: Op)
    requires IsPrefix(h, events) && (HasTime(op) ==> StampsBelow(h.entries, Time(op)))
    ensures IsPrefix(Apply(h, op), events + EventsOf(h, op))
  {
    assert events + [] == events;
    match op
    case Insert(e) => InsertKeepsPrefix(h, events, e);
    case Touch(id, now) =>
      var k := ItemOfId(h, id);
      if id in Ids(h.entries) { TouchKeepsPrefix(h, events, k, now); } else { TouchMissing(h, id, now); }
    case Delete(id) =>
      var k := ItemOfId(h, id);
      if id in Ids(h.entries) { DeleteKeepsPrefix(h, events, k); } else { DeleteMissing(h, id); }
    case Clear => ClearKeepsPrefix(h, events);
    case SetLimits(n, m) => TrimKeepsPrefix(h.(maxEntries := n, maxHistorySize := m), events);
  }

  /** What a run has come to. */
  ghost predicate Reached(n: U64, m: U64, ops: seq<Op>, h: History) {
    && h == Replay(Empty(n, m), ops)
    && IsPrefix(h, Happened(Empty(n, m), ops))
    && BoundsOf(h) == FinalBounds(EffectiveBounds(n, m), ops)
  }

  lemma {:induction false} RunKeepsPrefix(n: U64, m: U64, ops: seq<Op>, h: History)
    requires Clocked(ops) && RunsTo(Empty(n, m), ops, h)
    ensures Reached(n, m, ops, h)
    decreases |ops|
  {
    if ops != [] {
      var front, op := ops[..|ops| - 1], ops[|ops| - 1];
      var g :| RunsTo(Empty(n, m), front, g) && Yields(g, op, h);
      ClockedFront(ops);
      RunKeepsPrefix(n, m, front, g);
      ClockedRunIsReplay(n, m, front, g);
      if HasTime(op) {
        ClockAhead(g, front, op);
      }
      StepIsApply(g, op, h);
      StepKeepsPrefix(g, Happened(Empty(n, m), front), op);
      ApplyBounds(g, op);
      RunGrows(Empty(n, m), EffectiveBounds(n, m), front, op);
    }
  }

  /** After any run of any statements, the table is a prefix of the unbounded list, within the limits in
      force; and it is the longest such prefix exactly when nothing remembered is missing, or the next
      entry of the unbounded list would not fit. */
  lemma HistoryIsAlwaysAPrefix(n: U64, m: U64, ops: seq<Op>, h: History)
    requires Clocked(ops) && RunsTo(Empty(n, m), ops, h)
    ensures var b, full := FinalBounds(EffectiveBounds(n, m), ops), Mru(Happened(Empty(n, m), ops));
            var table := Items(Ranked(h.entries));
            && table <= full && (table == [] || Fits(table, b))
            && (table == FitPrefix(full, b) <==> |table| == |full| || !Fits(table + [full[|table|]], b))
  {
    RunKeepsPrefix(n, m, ops, h);
    PrefixIsLongestIff(Items(Ranked(h.entries)), Mru(Happened(Empty(n, m), ops)), BoundsOf(h));
  }

  // ----- runs in which nothing that was evicted could come to fit again

  /** Inserts, touches, and limits that are only ever tightened. */
  predicate UsesOnly(b: Bounds, ops: seq<Op>)
    decreases |ops|
  {
    ops == [] ||
    (UsesOnly(b, ops[..|ops| - 1]) &&
     match ops[|ops| - 1]
     case Insert(_) => true
     case Touch(_, _) => true
     case SetLimits(n, m) => Tighter(FinalBounds(b, ops[..|ops| - 1]), EffectiveBounds(n, m)) == EffectiveBounds(n, m)
     case _ => false)
  }

  /** What is stored under a hash never gets smaller, as when equal hashes come from equal content. */
  predicate SizesGrow(ops: seq<Op>) {
    forall i, j {:trigger ops[i], ops[j]} ::
      0 <= i < j < |ops| && ops[i].Insert? && ops[j].Insert? && ops[i].entry.hash == ops[j].entry.hash
      ==> ops[i].entry.size <= ops[j].entry.size
  }

  /** Everything remembered was inserted, with the size it has. */
  ghost predicate FromInserts(l: seq<Item>, ops: seq<Op>) {
    forall x :: x in l ==> InsertedAs(ops, x)
  }

  ghost predicate InsertedAs(ops: seq<Op>, x: Item) {
    exists op :: op in ops && op.Insert? && Item(op.entry.hash, op.entry.size) == x
  }

  lemma InsertedAsMore(front: seq<Op>, op: Op, x: Item)
    requires InsertedAs(front, x)
    ensures InsertedAs(front + [op], x)
  {
    var o :| o in front && o.Insert? && Item(o.entry.hash, o.entry.size) == x;
    assert o in front + [op];
  }

  lemma EventsAreFromInserts(h: History, events: seq<Event>, front: seq<Op>, op: Op)
    requires IsPrefix(h, events) && FromInserts(Mru(events), front)
    ensures FromInserts(Mru(events + EventsOf(h, op)), front + [op])
  {
    assert events + [] == events;
    assert (front + [op])[|front|] == op;
    forall x | x in Mru(events) ensures InsertedAs(front + [op], x) {
      InsertedAsMore(front, op, x);
    }
    match op
    case Insert(e) => UsedIsFromInserts(events, Item(e.hash, e.size), front + [op]);
    case Touch(id, _) =>
      if ItemWithId(h.entries, id).Some? {
        var x := TouchedIsRemembered(h, events, id);
        UsedIsFromInserts(events, x, front + [op]);
      }
    case Delete(id) =>
      if ItemWithId(h.entries, id).Some? {
        ForgottenIsFromInserts(events, ItemWithId(h.entries, id).value.hash, front + [op]);
      }
    case Clear => MruAppend(events, Wiped);
    case SetLimits(_, _) =>
  }

  lemma TouchedIsRemembered(h: History, events: seq<Event>, id: nat) returns (x: Item)
    requires IsPrefix(h, events) && ItemWithId(h.entries, id).Some?
    ensures x == ItemWithId(h.entries, id).value && x in Mru(events)
  {
    var k := ItemOfId(h, id);
    x := Item(h.entries[k].hash, h.entries[k].size);
    ItemIsRanked(h.entries, k);
  }

  lemma ForgottenIsFromInserts(events: seq<Event>, hash: Bytes, ops: seq<Op>)
    requires FromInserts(Mru(events), ops)
    ensures FromInserts(Mru(events + [Forgotten(hash)]), ops)
  {
    MruAppend(events, Forgotten(hash));
    RemoveMembers(Mru(events), hash);
  }

  lemma UsedIsFromInserts(events: seq<Event>, x: Item, ops: seq<Op>)
    requires FromInserts(Mru(events), ops) && InsertedAs(ops, x)
    ensures FromInserts(Mru(events + [Used(x)]), ops)
  {
    MruAppend(events, Used(x));
    MruIsByLastUse(events);
    PromoteMembers(Mru(events), x);
  }

  lemma {:induction false} RunIsFromInserts(n: U64, m: U64, ops: seq<Op>, h: History)
    requires Clocked(ops) && RunsTo(Empty(n, m), ops, h)
    ensures FromInserts(Mru(Happened(Empty(n, m), ops)), ops)
    decreases |ops|
  {
    if ops != [] {
      var front, op := ops[..|ops| - 1], ops[|ops| - 1];
      var g :| RunsTo(Empty(n, m), front, g) && Yields(g, op, h);
      ClockedFront(ops);
      RunIsFromInserts(n, m, front, g);
      RunKeepsPrefix(n, m, front, g);
      EventsAreFromInserts(g, Happened(Empty(n, m), front), front, op);
      RunGrows(Empty(n, m), EffectiveBounds(n, m), front, op);
    }
  }

  lemma InsertIsNotSmaller(front: seq<Op>, op: Op, l: seq<Item>)
    requires SizesGrow(front + [op]) && op.Insert? && FromInserts(l, front)
    ensures NotSmaller(l, Item(op.entry.hash, op.entry.size))
  {
    var ops := front + [op];
    forall y | y in l && y.hash == op.entry.hash ensures y.size <= op.entry.size {
      assert InsertedAs(front, y);
      var o :| o in front && o.Insert? && Item(o.entry.hash, o.entry.size) == y;
      var i :| 0 <= i < |front| && front[i] == o;
      assert ops[i] == o && ops[|front|] == op;
    }
  }

  /** The table is the longest prefix that fits. */
  predicate IsLongest(h: History, events: seq<Event>) {
    Items(Ranked(h.entries)) == FitPrefix(Mru(events), BoundsOf(h))
  }

  lemma InsertStaysLongest(h: History, events: seq<Event>, e: NewEntry)
    requires IsPrefix(h, events) && IsLongest(h, events) && StampsBelow(h.entries, e.createdAt)
    requires NotSmaller(Mru(events), Item(e.hash, e.size))
    ensures IsLongest(Inserted(h, e), events + [Used(Item(e.hash, e.size))])
  {
    var x := Item(e.hash, e.size);
    StoredKeepsWellFormed(h, e);
    StoredPromotes(h, e);
    RankedTrimmed(Stored(h, e));
    MruIsByLastUse(events);
    TrimAfterPromote(Mru(events), x, BoundsOf(h));
    MruAppend(events, Used(x));
  }

  lemma TouchStaysLongest(h: History, events: seq<Event>, k: nat, now: int)
    requires IsPrefix(h, events) && IsLongest(h, events) && StampsBelow(h.entries, now) && k < |h.entries|
    ensures IsLongest(Touched(h, h.entries[k].id, now), events + [Used(Item(h.entries[k].hash, h.entries[k].size))])
  {
    var x := Item(h.entries[k].hash, h.entries[k].size);
    ItemIsRanked(h.entries, k);
    MruIsByLastUse(events);
    TouchNeedsNoTrim(Mru(events), x, BoundsOf(h));
    MruAppend(events, Used(x));
    TouchedPromotes(h, k, now);
  }

  lemma LimitStaysLongest(h: History, events: seq<Event>, n: U64, m: U64)
    requires IsPrefix(h, events) && IsLongest(h, events)
    requires Tighter(BoundsOf(h), EffectiveBounds(n, m)) == EffectiveBounds(n, m)
    ensures IsLongest(Limited(h, n, m), events)
  {
    RankedTrimmed(h.(maxEntries := n, maxHistorySize := m));
    TrimTwice(Mru(events), BoundsOf(h), EffectiveBounds(n, m));
  }

  /** A statement that frees no room that something evicted might use. */
  predicate FreesNothing(h: History, events: seq<Event>, op: Op) {
    match op
    case Insert(e) => NotSmaller(Mru(events), Item(e.hash, e.size))
    case Touch(_, _) => true
    case SetLimits(n, m) => Tighter(BoundsOf(h), EffectiveBounds(n, m)) == EffectiveBounds(n, m)
    case _ => false
  }

  lemma StepStaysLongest(h: History, events: seq<Event>, op: Op)
    requires IsPrefix(h, events) && IsLongest(h, events) && (HasTime(op) ==> StampsBelow(h.entries, Time(op)))
    requires FreesNothing(h, events, op)
    ensures IsLongest(Apply(h, op), events + EventsOf(h, op))
  {
    assert events + [] == events;
    match op
    case Insert(e) => InsertStaysLongest(h, events, e);
    case Touch(id, now) =>
      var k := ItemOfId(h, id);
      if id in Ids(h.entries) { TouchStaysLongest(h, events, k, now); } else { TouchMissing(h, id, now); }
    case SetLimits(n, m) => LimitStaysLongest(h, events, n, m);
  }

  lemma {:induction false} RunStaysLongest(n: U64, m: U64, ops: seq<Op>, h: History)
    requires Clocked(ops) && SizesGrow(ops) && UsesOnly(EffectiveBounds(n, m), ops) && RunsTo(Empty(n, m), ops, h)
    ensures IsLongest(h, Happened(Empty(n, m), ops))
    decreases |ops|
  {
    if ops != [] {
      var front, op := ops[..|ops| - 1], ops[|ops| - 1];
      var g :| RunsTo(Empty(n, m), front, g) && Yields(g, op, h);
      var events := Happened(Empty(n, m), front);
      ClockedFront(ops);
      GrowingFront(front, op);
      RunStaysLongest(n, m, front, g);
      RunKeepsPrefix(n, m, front, g);
      ClockedRunIsReplay(n, m, front, g);
      if HasTime(op) {
        ClockAhead(g, front, op);
      }
      if op.Insert? {
        RunIsFromInserts(n, m, front, g);
        InsertIsNotSmaller(front, op, Mru(events));
      }
      StepIsApply(g, op, h);
      StepStaysLongest(g, events, op);
      RunGrows(Empty(n, m), EffectiveBounds(n, m), front, op);
    }
  }

  lemma GrowingFront(front: seq<Op>, op: Op)
    requires SizesGrow(front + [op])
    ensures SizesGrow(front)
  {
    var ops := front + [op];
    assert forall i :: 0 <= i < |front| ==> ops[i] == front[i];
  }

  function FirstItems(l: seq<Item>, k: U64): seq<Item> {
    if AsI64(k) < 0 || AsI64(k) >= |l| then l else l[..AsI64(k)]
  }

  lemma ListedItems(h: History, k: U64)
    ensures Items(Listed(h, k)) == FirstItems(Items(Ranked(h.entries)), k)
  {
  }

  /** After any run of inserts, touches and tightened limits in which nothing shrinks under its hash, the
      table is exactly the longest prefix of the unbounded most-recently-used list that fits, and listing
      shows its first `k` entries. */
  lemma BoundedHistoryIsFittingPrefix(n: U64, m: U64, ops: seq<Op>, h: History, k: U64)
    requires Clocked(ops) && SizesGrow(ops) && UsesOnly(EffectiveBounds(n, m), ops) && RunsTo(Empty(n, m), ops, h)
    ensures var full := FitPrefix(Mru(Happened(Empty(n, m), ops)), FinalBounds(EffectiveBounds(n, m), ops));
            && Items(Ranked(h.entries)) == full
            && Items(Listed(h, k)) == FirstItems(full, k)
  {
    RunStaysLongest(n, m, ops, h);
    RunKeepsPrefix(n, m, ops, h);
    ListedItems(h, k);
  }

  // ----- what an insert does to itself

  /** The row an insert writes carries the latest stamp, so it leads every order. */
  lemma StoredRowLeads(h: History, e: NewEntry, order: seq<Row>)
    requires WellFormed(h) && StampsBelow(h.entries, e.createdAt) && RecencyOrder(order, Stored(h, e).entries)
    ensures order != [] && order[0].hash == e.hash && order[0].size == e.size
    ensures forall r :: r in order && r.hash == e.hash ==> r == order[0]
  {
    var s := Stored(h, e);
    StoredKeepsWellFormed(h, e);
    var k := StoredRow(h, e);
    PermutationFacts(order, s.entries);
    assert s.entries[k] in order;
    var i :| 0 <= i < |order| && order[i] == s.entries[k];
    assert order[0] in s.entries;
    var j :| 0 <= j < |s.entries| && s.entries[j] == order[0];
    assert order[0].lastUsedAt >= order[i].lastUsedAt;
    forall r | r in order && r.hash == e.hash ensures r == order[0] {
      assert r in s.entries;
      var l :| 0 <= l < |s.entries| && s.entries[l] == r;
    }
  }

  /** Where the written row stands; all others are older. */
  lemma StoredRow(h: History, e: NewEntry) returns (k: nat)
    requires WellFormed(h) && StampsBelow(h.entries, e.createdAt)
    ensures var rows := Stored(h, e).entries;
            && k < |rows| && rows[k].hash == e.hash && rows[k].size == e.size && rows[k].lastUsedAt == e.createdAt
            && forall i :: 0 <= i < |rows| && i != k ==> rows[i].lastUsedAt < e.createdAt
  {
    match FindByHash(h.entries, e.hash)
    case Some(id) =>
      k := FoundRow(h, e.hash, id);
      forall i | 0 <= i < |h.entries| && i != k ensures h.entries[i].lastUsedAt < e.createdAt && h.entries[i].id != id {
        assert h.entries[i] in h.entries;
      }
    case None =>
      k := |h.entries|;
      forall i | 0 <= i < |h.entries| ensures h.entries[i].lastUsedAt < e.createdAt {
        assert h.entries[i] in h.entries;
      }
  }

  /** A newest entry, new or refreshed, survives its own trim exactly when it is within the byte limit
      and any entries are allowed; a larger one empties the store. */
  lemma InsertSurvivesIff(h: History, e: NewEntry, t: History)
    requires WellFormed(h) && StampsBelow(h.entries, e.createdAt) && TrimsTo(Stored(h, e), t)
    ensures (exists r :: r in t.entries && r.hash == e.hash) <==> e.size <= AsI64(h.maxHistorySize) && h.maxEntries != 0
    ensures e.size > AsI64(h.maxHistorySize) ==> t.entries == []
  {
    var s, b := Stored(h, e), BoundsOf(h);
    StoredKeepsWellFormed(h, e);
    var order :| TrimOrder(order, s.entries, b.count) && t == Retain(s, Ids(order[..Fitting(order, b)]));
    var k := Fitting(order, b);
    StoredRowLeads(h, e, order);
    MembersOfFront(s.entries, order, k);
    assert Items(order)[0] == Item(e.hash, e.size);
    assert AsI64(h.maxEntries) == 0 <==> h.maxEntries == 0;
    assert k == 0 <==> b.count == 0 || e.size > b.bytes;
    if k == 0 {
      HasMember(t.entries);
    } else {
      assert order[0] in order[..k];
    }
  }

  /** Whatever its stamp, a row survives trimming exactly when it and the rows before it in the order
      fit the limits.  So an entry stamped late, by a clock read before others were stored, may go at
      once. */
  lemma SurvivesTrimIff(h: History, order: seq<Row>, i: nat)
    requires WellFormed(h) && TrimOrder(order, h.entries, BoundsOf(h).count) && i < |order|
    ensures var t := Retain(h, Ids(order[..Fitting(order, BoundsOf(h))]));
            TrimsTo(h, t) && (order[i] in t.entries <==> Fits(Items(order)[..i + 1], BoundsOf(h)))
  {
    var n := Fitting(order, BoundsOf(h));
    MembersOfFront(h.entries, order, n);
    InFrontIff(h.entries, order, i, n);
    FitPrefixIsLongest(Items(order), BoundsOf(h), i + 1);
  }

  lemma InFrontIff(rows: seq<Row>, order: seq<Row>, i: nat, n: nat)
    requires IdsAscend(rows) && multiset(order) == multiset(rows) && i < |order| && n <= |order|
    ensures order[i] in order[..n] <==> i < n
  {
    OrderIdsDiffer(rows, order);
    if order[i] in order[..n] {
      var j :| 0 <= j < n && order[j] == order[i];
    }
  }

  // ----- limits that do not fit an i64

  /** The limits as configured, before the cast. */
  function ConfiguredBounds(h: History): Bounds { Bounds(h.maxEntries, h.maxHistorySize) }

  /** Trimming honours the configured limits exactly when the byte limit is below 2^63, or nothing could
      be kept under them anyway. */
  lemma TrimMeetsConfiguredLimitsIff(h: History, order: seq<Row>)
    requires multiset(order) == multiset(h.entries) && |h.entries| < 0x8000_0000_0000_0000
    ensures Fitting(order, BoundsOf(h)) == Fitting(order, ConfiguredBounds(h))
            <==> || h.maxHistorySize < 0x8000_0000_0000_0000
                 || order == [] || h.maxEntries == 0 || order[0].size > h.maxHistorySize
  {
    var l := Items(order);
    PermutationFacts(order, h.entries);
    if h.maxHistorySize >= 0x8000_0000_0000_0000 {
      if order != [] {
        assert l[0].size == order[0].size;
      }
    } else {
      CountIsNoLimit(l, Bounds(AsI64(h.maxEntries), AsI64(h.maxHistorySize)), h.maxEntries);
    }
  }

  /** A byte limit of 2^63 or more becomes negative in the cast, and every trim empties the table. */
  lemma HugeByteLimitEmpties(h: History, t: History)
    requires TrimsTo(h, t) && h.maxHistorySize >= 0x8000_0000_0000_0000
    ensures t.entries == [] && t.payloads == []
  {
    var b := BoundsOf(h);
    var order :| TrimOrder(order, h.entries, b.count) && t == Retain(h, Ids(order[..Fitting(order, b)]));
    assert Fitting(order, b) == 0 && Ids(order[..0]) == {};
    NothingKept(h);
  }

  lemma NothingKept(h: History)
    ensures Retain(h, {}).entries == [] && Retain(h, {}).payloads == []
  {
    WhereMembers(h.entries, {});
    CascadeMembers(h.payloads, {});
    HasMember(Where(h.entries, {}));
    HasMember(Cascade(h.payloads, {}));
  }

  /** A count at least the length is no limit. */
  lemma {:induction false} CountIsNoLimit(l: seq<Item>, b: Bounds, count: nat)
    requires b.count == count || (b.count < 0 && |l| <= count)
    ensures FitPrefix(l, b) == FitPrefix(l, Bounds(count, b.bytes))
  {
    if l != [] && b.count < 0 && l[0].size <= b.bytes {
      CountIsNoLimit(l[1..], Bounds(b.count - 1, b.bytes - l[0].size), count - 1);
    }
  }

  /** A list trimmed under one pair of limits and then another, in any relation to the first, matches
      the full history exactly when nothing had been evicted, or the entry evicted last does not fit
      the new limits either. */
  lemma RaisedLimitsMatchIff(l: seq<Item>, a: Bounds, b: Bounds)
    ensures |FitPrefix(l, a)| <= |l|
    ensures FitPrefix(FitPrefix(l, a), b) == FitPrefix(l, b)
            <==> |FitPrefix(l, a)| == |l| || !Fits(FitPrefix(l, a) + [l[|FitPrefix(l, a)|]], b)
  {
    var f := FitPrefix(l, a);
    FitPrefixIsPrefix(l, a);
    FitPrefixIsPrefix(l, b);
    FitPrefixIsPrefix(f, b);
    if |f| < |l| {
      assert l[..|f| + 1] == f + [l[|f|]];
      FitPrefixIsLongest(l, b, |f| + 1);
      if !Fits(f + [l[|f|]], b) {
        assert l == f + l[|f|..];
        FitPrefixCut(f, l[|f|..], b);
      }
    }
  }
}
