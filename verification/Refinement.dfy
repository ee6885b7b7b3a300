/** Whole runs of the store: the bounded table against an unbounded most-recently-used list. */
module Refinement {
  import opened Prelude
  import opened Recency
  import opened Tables
  import opened Ranking
  import opened Trimming

  datatype Op =
    | Insert(entry: NewEntry)
    | Touch(id: nat, now: int)
    | Delete(id: nat)
    | Clear
    | SetLimits(maxEntries: U64, maxHistorySize: U64)

  function Apply(h: History, op: Op): History {
    match op
    case Insert(e) => Inserted(h, e)
    case Touch(id, now) => Touched(h, id, now)
    case Delete(id) => Deleted(h, id)
    case Clear => Cleared(h)
    case SetLimits(n, m) => Limited(h, n, m)
  }

  function Replay(h: History, ops: seq<Op>): History
    decreases |ops|
  {
    if ops == [] then h else Apply(Replay(h, ops[..|ops| - 1]), ops[|ops| - 1])
  }

  /** `op` may turn `h` into `k`; trimming may break ties in more than one way. */
  ghost predicate Yields(h: History, op: Op, k: History) {
    match op
    case Insert(e) => TrimsTo(Stored(h, e), k)
    case Touch(id, now) => k == Touched(h, id, now)
    case Delete(id) => k == Deleted(h, id)
    case Clear => k == Cleared(h)
    case SetLimits(n, m) => TrimsTo(h.(maxEntries := n, maxHistorySize := m), k)
  }

  /** The run may turn `h` into `k`. */
  ghost predicate RunsTo(h: History, ops: seq<Op>, k: History)
    decreases |ops|
  {
    if ops == [] then k == h
    else
      exists m {:trigger RunsTo(h, ops[..|ops| - 1], m)} ::
        RunsTo(h, ops[..|ops| - 1], m) && Yields(m, ops[|ops| - 1], k)
  }

  lemma RunsToMore(h: History, front: seq<Op>, m: History, op: Op, k: History)
    requires RunsTo(h, front, m) && Yields(m, op, k)
    ensures RunsTo(h, front + [op], k)
  {
    var ops := front + [op];
    assert ops[..|ops| - 1] == front && ops[|ops| - 1] == op;
    assert RunsTo(h, ops[..|ops| - 1], m) && Yields(m, ops[|ops| - 1], k);
  }

  /** Breaking ties by id is one of the runs. */
  lemma ApplyIsAYield(h: History, op: Op)
    ensures Yields(h, op, Apply(h, op))
  {
    match op
    case Insert(e) => TrimmedIsATrim(Stored(h, e));
    case SetLimits(n, m) => TrimmedIsATrim(h.(maxEntries := n, maxHistorySize := m));
    case _ =>
  }

  lemma {:induction false} ReplayIsARun(h: History, ops: seq<Op>)
    ensures RunsTo(h, ops, Replay(h, ops))
    decreases |ops|
  {
    if ops != [] {
      ReplayIsARun(h, ops[..|ops| - 1]);
      ApplyIsAYield(Replay(h, ops[..|ops| - 1]), ops[|ops| - 1]);
    }
  }

  function Empty(maxEntries: U64, maxHistorySize: U64): History {
    History([], [], 0, 0, maxEntries, maxHistorySize)
  }

  // ----- invariants over all runs

  lemma StepKeepsWellFormed(h: History, op: Op, k: History)
    requires WellFormed(h) && Yields(h, op, k)
    ensures WellFormed(k)
  {
    match op
    case Insert(e) =>
      StoredKeepsWellFormed(h, e);
      TrimFacts(Stored(h, e), k);
    case Touch(id, now) => RewriteKeepsWellFormed(h, Restamped(h.entries, id, now));
    case Delete(id) => RetainKeepsWellFormed(h, Ids(h.entries) - {id});
    case Clear => RetainKeepsWellFormed(h, {});
    case SetLimits(n, m) => TrimFacts(h.(maxEntries := n, maxHistorySize := m), k);
  }

  lemma ApplyKeepsWellFormed(h: History, op: Op)
    requires WellFormed(h)
    ensures WellFormed(Apply(h, op))
  {
    ApplyIsAYield(h, op);
    StepKeepsWellFormed(h, op, Apply(h, op));
  }

  /** Over any run, with any stamps: ids and hashes are unique and every payload row has its entry. */
  lemma {:induction false} RunKeepsWellFormed(h: History, ops: seq<Op>, k: History)
    requires WellFormed(h) && RunsTo(h, ops, k)
    ensures WellFormed(k)
    decreases |ops|
  {
    if ops != [] {
      var m :| RunsTo(h, ops[..|ops| - 1], m) && Yields(m, ops[|ops| - 1], k);
      RunKeepsWellFormed(h, ops[..|ops| - 1], m);
      StepKeepsWellFormed(m, ops[|ops| - 1], k);
    }
  }

  /** `r` is the entry that had its id in `h`: same hash, same creation time, same payloads. */
  ghost predicate SameEntry(h: History, k: History, r: Row) {
    && (exists s :: s in h.entries && s.id == r.id && s.hash == r.hash && s.createdAt == r.createdAt)
    && PayloadsOf(k.payloads, r.id) == PayloadsOf(h.payloads, r.id)
  }

  /** Ids already given out still mean what they meant, and new ones are larger. */
  ghost predicate Extends(h: History, k: History) {
    h.lastId <= k.lastId && forall r :: r in k.entries && r.id <= h.lastId ==> SameEntry(h, k, r)
  }

  lemma RetainExtends(h: History, ids: set<nat>)
    ensures Extends(h, Retain(h, ids))
  {
    WhereMembers(h.entries, ids);
    forall r | r in Where(h.entries, ids) ensures SameEntry(h, Retain(h, ids), r) {
      CascadeKeepsPayloadsOf(h.payloads, ids, r.id);
    }
  }

  lemma RewriteExtends(h: History, rows: seq<Row>)
    requires |rows| == |h.entries|
    requires forall i :: 0 <= i < |rows| ==>
               rows[i].id == h.entries[i].id && rows[i].hash == h.entries[i].hash
                   && rows[i].createdAt == h.entries[i].createdAt
    ensures Extends(h, h.(entries := rows))
  {
    forall r | r in rows ensures SameEntry(h, h.(entries := rows), r) {
      var i :| 0 <= i < |rows| && rows[i] == r;
      assert h.entries[i] in h.entries;
    }
  }

  lemma {:induction false} PayloadsOfAppend(a: seq<PayloadRow>, b: seq<PayloadRow>, entryId: nat)
    ensures PayloadsOf(a + b, entryId) == PayloadsOf(a, entryId) + PayloadsOf(b, entryId)
  {
    if a == [] {
      assert a + b == b;
    } else {
      var head := if a[0].entryId == entryId then [a[0].payload] else [];
      assert (a + b)[1..] == a[1..] + b;
      PayloadsOfAppend(a[1..], b, entryId);
      assert PayloadsOf(a, entryId) == head + PayloadsOf(a[1..], entryId);
      assert PayloadsOf(a + b, entryId) == head + PayloadsOf(a[1..] + b, entryId);
    }
  }

  lemma {:induction false} PayloadsOfNone(a: seq<PayloadRow>, entryId: nat)
    requires forall p :: p in a ==> p.entryId != entryId
    ensures PayloadsOf(a, entryId) == []
  {
    if a != [] {
      PayloadsOfNone(a[1..], entryId);
      assert a[0] in a;
    }
  }

  lemma {:induction false} PayloadsOfOwn(entryId: nat, after: nat, payloads: seq<Payload>)
    ensures PayloadsOf(PayloadRows(entryId, after, payloads), entryId) == payloads
    decreases |payloads|
  {
    if payloads != [] {
      PayloadsOfOwn(entryId, after + 1, payloads[1..]);
      assert PayloadRows(entryId, after, payloads)[1..] == PayloadRows(entryId, after + 1, payloads[1..]);
    }
  }

  lemma StoredExtends(h: History, e: NewEntry)
    requires WellFormed(h)
    ensures Extends(h, Stored(h, e))
  {
    match FindByHash(h.entries, e.hash)
    case Some(id) => RewriteExtends(h, Updated(h.entries, id, e));
    case None =>
      var k := Stored(h, e);
      forall r | r in k.entries && r.id <= h.lastId ensures SameEntry(h, k, r) {
        assert r in h.entries;
        PayloadsOfAppend(h.payloads, PayloadRows(k.lastId, h.lastPayloadId, e.payloads), r.id);
        PayloadsOfNone(PayloadRows(k.lastId, h.lastPayloadId, e.payloads), r.id);
      }
  }

  /** A new entry's payload rows are the payloads it was given. */
  lemma StoredPayloads(h: History, e: NewEntry)
    requires WellFormed(h) && FindByHash(h.entries, e.hash).None?
    ensures PayloadsOf(Stored(h, e).payloads, h.lastId + 1) == e.payloads
  {
    var id := h.lastId + 1;
    forall p | p in h.payloads ensures p.entryId != id {
      var r :| r in h.entries && r.id == p.entryId;
    }
    PayloadsOfNone(h.payloads, id);
    PayloadsOfAppend(h.payloads, PayloadRows(id, h.lastPayloadId, e.payloads), id);
    PayloadsOfOwn(id, h.lastPayloadId, e.payloads);
  }

  lemma ExtendsTransitive(h: History, k: History, l: History)
    requires Extends(h, k) && Extends(k, l)
    ensures Extends(h, l)
  {
    forall r | r in l.entries && r.id <= h.lastId ensures SameEntry(h, l, r) {
      assert SameEntry(k, l, r);
      var s :| s in k.entries && s.id == r.id && s.hash == r.hash && s.createdAt == r.createdAt;
      assert SameEntry(h, k, s);
    }
  }

  lemma TrimExtends(h: History, k: History)
    requires TrimsTo(h, k)
    ensures Extends(h, k)
  {
    var b := BoundsOf(h);
    var order :| TrimOrder(order, h.entries, b.count) && k == Retain(h, Ids(order[..Fitting(order, b)]));
    RetainExtends(h, Ids(order[..Fitting(order, b)]));
  }

  lemma StepExtends(h: History, op: Op, k: History)
    requires WellFormed(h) && Yields(h, op, k)
    ensures Extends(h, k)
  {
    match op
    case Insert(e) =>
      StoredExtends(h, e);
      TrimExtends(Stored(h, e), k);
      ExtendsTransitive(h, Stored(h, e), k);
    case Touch(id, now) => RewriteExtends(h, Restamped(h.entries, id, now));
    case Delete(id) => RetainExtends(h, Ids(h.entries) - {id});
    case Clear => RetainExtends(h, {});
    case SetLimits(n, m) => TrimExtends(h.(maxEntries := n, maxHistorySize := m), k);
  }

  lemma ExtendsItself(h: History)
    ensures Extends(h, h)
  {
    forall r | r in h.entries ensures SameEntry(h, h, r) {
    }
  }

  /** Over any run, with any stamps, an id is never reused, and the entry it names never changes its
      hash, creation time or payloads. */
  lemma {:induction false} IdsNeverReused(h: History, ops: seq<Op>, k: History)
    requires WellFormed(h) && RunsTo(h, ops, k)
    ensures Extends(h, k)
    decreases |ops|
  {
    if ops == [] {
      ExtendsItself(h);
    } else {
      var m :| RunsTo(h, ops[..|ops| - 1], m) && Yields(m, ops[|ops| - 1], k);
      IdsNeverReused(h, ops[..|ops| - 1], m);
      RunKeepsWellFormed(h, ops[..|ops| - 1], m);
      StepExtends(m, ops[|ops| - 1], k);
      ExtendsTransitive(h, m, k);
    }
  }

  // ----- what one statement does to the recency list

  predicate StampsBelow(rows: seq<Row>, now: int) {
    forall r :: r in rows ==> r.lastUsedAt < now
  }

  lemma RankedTrimmed(h: History)
    requires WellFormed(h) && DistinctStamps(h.entries)
    ensures Items(Ranked(Trimmed(h).entries)) == FitPrefix(Items(Ranked(h.entries)), BoundsOf(h))
    ensures DistinctStamps(Trimmed(h).entries)
    ensures forall r :: r in Trimmed(h).entries ==> r in h.entries
  {
    var n := KeptCount(h.entries, BoundsOf(h));
    var ids := Ids(Ranked(h.entries)[..n]);
    RankedPrefix(h.entries, n);
    WhereKeepsDistinct(h.entries, ids);
    WhereMembers(h.entries, ids);
    FitPrefixIsPrefix(Items(Ranked(h.entries)), BoundsOf(h));
    assert Items(Ranked(h.entries)[..n]) == Items(Ranked(h.entries))[..n];
  }

  /** `rows` with `front` used last: moved to the front, or added there. */
  ghost predicate UsedLast(rows: seq<Row>, after: seq<Row>, front: Row) {
    && front in after
    && (forall r :: r in rows ==> r.lastUsedAt < front.lastUsedAt)
    && (forall r :: r in after <==> r == front || (r in rows && r.id != front.id))
  }

  lemma ItemsDiffer(rows: seq<Row>, order: seq<Row>)
    requires HashesDiffer(rows) && NewestFirst(order) && forall r :: r in order ==> r in rows
    ensures Once(Items(order))
  {
    forall i, j | 0 <= i < j < |order| ensures Items(order)[i].hash != Items(order)[j].hash {
      assert order[i] in rows && order[j] in rows;
      var a :| 0 <= a < |rows| && rows[a] == order[i];
      var b :| 0 <= b < |rows| && rows[b] == order[j];
    }
  }

  lemma ItemsOfFront(order: seq<Row>, rest: seq<Row>, front: Row)
    requires Remove(Items(order), front.hash) == Items(rest)
    ensures Items([front] + rest) == Promote(Items(order), Item(front.hash, front.size))
  {
  }

  lemma ItemsPromoted(order: seq<Row>, i: nat, front: Row)
    requires Once(Items(order)) && i < |order| && order[i].hash == front.hash
    ensures Items([front] + (order[..i] + order[i + 1..])) == Promote(Items(order), Item(front.hash, front.size))
  {
    var rest := order[..i] + order[i + 1..];
    RemoveAt(Items(order), i);
    assert Items(order)[..i] + Items(order)[i + 1..] == Items(rest);
    ItemsOfFront(order, rest, front);
  }

  /** The row used last was at place `i`. */
  lemma UsedAgain(rows: seq<Row>, after: seq<Row>, order: seq<Row>, i: nat, front: Row)
    requires IdsAscend(rows) && NewestFirst(order) && forall r :: r in order <==> r in rows
    requires Once(Items(order)) && DistinctStamps(after) && UsedLast(rows, after, front)
    requires i < |order| && order[i].id == front.id && order[i].hash == front.hash
    ensures Items(Ranked(after)) == Promote(Items(order), Item(front.hash, front.size))
  {
    var rest := order[..i] + order[i + 1..];
    ItemsPromoted(order, i, front);
    forall r ensures r in [front] + rest <==> r in after {
      RestMembers(rows, order, i, r);
    }
    forall r | r in order ensures r.lastUsedAt < front.lastUsedAt {
      assert r in rows;
    }
    FrontIsNewest(order, i, front);
    RankedIs(after, [front] + rest);
  }

  /** The row used last is new. */
  lemma UsedFirstTime(rows: seq<Row>, after: seq<Row>, order: seq<Row>, front: Row)
    requires NewestFirst(order) && forall r :: r in order <==> r in rows
    requires DistinctStamps(after) && UsedLast(rows, after, front)
    requires forall r :: r in rows ==> r.id != front.id && r.hash != front.hash
    ensures Items(Ranked(after)) == Promote(Items(order), Item(front.hash, front.size))
  {
    forall k | 0 <= k < |order| ensures Items(order)[k].hash != front.hash && front.lastUsedAt > order[k].lastUsedAt {
      assert order[k] in order && order[k] in rows;
    }
    RemoveAbsent(Items(order), front.hash);
    ItemsOfFront(order, order, front);
    RankedIs(after, [front] + order);
  }

  /** The row used last leads the list, and the others keep their order. */
  lemma RankedUsedLast(rows: seq<Row>, after: seq<Row>, front: Row)
    requires IdsAscend(rows) && HashesDiffer(rows) && DistinctStamps(rows)
    requires DistinctStamps(after) && UsedLast(rows, after, front)
    requires forall r :: r in rows ==> (r.id == front.id <==> r.hash == front.hash)
    ensures Items(Ranked(after)) == Promote(Items(Ranked(rows)), Item(front.hash, front.size))
  {
    var order := Ranked(rows);
    RankedNewestFirst(rows);
    forall r ensures r in order <==> r in rows { RankedMembers(rows, r); }
    ItemsDiffer(rows, order);
    if i :| 0 <= i < |order| && order[i].id == front.id {
      assert order[i] in rows;
      UsedAgain(rows, after, order, i, front);
    } else {
      forall r | r in rows ensures r.id != front.id {
        assert r in order;
      }
      UsedFirstTime(rows, after, order, front);
    }
  }

  lemma RestMembers(rows: seq<Row>, order: seq<Row>, i: nat, r: Row)
    requires i < |order| && NewestFirst(order) && IdsAscend(rows) && forall s :: s in order <==> s in rows
    ensures r in order[..i] + order[i + 1..] <==> r in rows && r.id != order[i].id
  {
    assert order[i] in rows;
    if r in rows && r.id != order[i].id {
      var k :| 0 <= k < |order| && order[k] == r;
      assert r in if k < i then order[..i] else order[i + 1..];
    }
    if r in order[..i] + order[i + 1..] {
      var k :| 0 <= k < |order| && k != i && order[k] == r;
      assert r in rows;
      if r.id == order[i].id {
        IdIsKey(rows, r, order[i]);
      }
    }
  }

  lemma FrontIsNewest(order: seq<Row>, i: nat, front: Row)
    requires i < |order| && NewestFirst(order) && forall r :: r in order ==> r.lastUsedAt < front.lastUsedAt
    ensures NewestFirst([front] + (order[..i] + order[i + 1..]))
  {
    var rest := order[..i] + order[i + 1..];
    forall k | 0 <= k < |rest| ensures rest[k].lastUsedAt < front.lastUsedAt {
      assert rest[k] == order[if k < i then k else k + 1];
      assert rest[k] in order;
    }
  }

  // ----- the statements use rows last

  lemma DistinctWithFront(rows: seq<Row>, after: seq<Row>, front: Row)
    requires DistinctStamps(rows) && StampsBelow(rows, front.lastUsedAt) && |after| == |rows|
    requires IdsAscend(rows)
    requires forall i :: 0 <= i < |rows| ==> after[i] == if rows[i].id == front.id then front else rows[i]
    ensures DistinctStamps(after)
  {
    forall i, j | 0 <= i < j < |rows| ensures after[i].lastUsedAt != after[j].lastUsedAt {
      assert rows[i] in rows && rows[j] in rows;
    }
  }

  lemma RewrittenUsedLast(rows: seq<Row>, after: seq<Row>, k: nat, front: Row)
    requires k < |rows| && rows[k].id == front.id && StampsBelow(rows, front.lastUsedAt) && |after| == |rows|
    requires IdsAscend(rows)
    requires forall i :: 0 <= i < |rows| ==> after[i] == if rows[i].id == front.id then front else rows[i]
    ensures UsedLast(rows, after, front)
  {
    assert after[k] == front;
    forall r ensures r in after <==> r == front || (r in rows && r.id != front.id) {
      if r in rows && r.id != front.id {
        var i :| 0 <= i < |rows| && rows[i] == r;
        assert after[i] == r;
      }
    }
  }

  /** One row rewritten with the latest stamp, its hash unchanged, is promoted with its new size. */
  lemma RewritePromotes(h: History, after: seq<Row>, k: nat, front: Row)
    requires WellFormed(h) && DistinctStamps(h.entries) && k < |h.entries| && |after| == |h.entries|
    requires h.entries[k].id == front.id && h.entries[k].hash == front.hash
    requires StampsBelow(h.entries, front.lastUsedAt)
    requires forall i :: 0 <= i < |after| ==> after[i] == if h.entries[i].id == front.id then front else h.entries[i]
    ensures DistinctStamps(after)
    ensures Items(Ranked(after)) == Promote(Items(Ranked(h.entries)), Item(front.hash, front.size))
  {
    DistinctWithFront(h.entries, after, front);
    RewrittenUsedLast(h.entries, after, k, front);
    forall r | r in h.entries ensures r.id == front.id <==> r.hash == front.hash {
      var i :| 0 <= i < |h.entries| && h.entries[i] == r;
      assert i != k ==> r.id != front.id && r.hash != front.hash;
    }
    RankedUsedLast(h.entries, after, front);
  }

  lemma FoundRow(h: History, hash: Bytes, id: nat) returns (k: nat)
    requires WellFormed(h) && FindByHash(h.entries, hash) == Some(id)
    ensures k < |h.entries| && h.entries[k].id == id && h.entries[k].hash == hash
  {
    var x :| x in h.entries && x.id == id && x.hash == hash;
    k :| 0 <= k < |h.entries| && h.entries[k] == x;
  }

  lemma AddedPromotes(h: History, front: Row)
    requires WellFormed(h) && DistinctStamps(h.entries) && StampsBelow(h.entries, front.lastUsedAt)
    requires front.id == h.lastId + 1 && forall r :: r in h.entries ==> r.hash != front.hash
    ensures DistinctStamps(h.entries + [front])
    ensures Items(Ranked(h.entries + [front])) == Promote(Items(Ranked(h.entries)), Item(front.hash, front.size))
  {
    var after := h.entries + [front];
    forall i | 0 <= i < |h.entries| ensures after[i].lastUsedAt != front.lastUsedAt {
      assert h.entries[i] in h.entries;
    }
    assert after[|h.entries|] == front;
    RankedUsedLast(h.entries, after, front);
  }

  lemma RefreshedPromotes(h: History, e: NewEntry, id: nat)
    requires WellFormed(h) && DistinctStamps(h.entries) && StampsBelow(h.entries, e.createdAt)
    requires FindByHash(h.entries, e.hash) == Some(id)
    ensures DistinctStamps(Updated(h.entries, id, e))
    ensures Items(Ranked(Updated(h.entries, id, e))) == Promote(Items(Ranked(h.entries)), Item(e.hash, e.size))
  {
    var k := FoundRow(h, e.hash, id);
    assert h.entries[k] in h.entries;
    RewritePromotes(h, Updated(h.entries, id, e), k, Refreshed(h.entries[k], e));
  }

  /** A later stamp keeps all stamps different. */
  lemma StoredDistinct(h: History, e: NewEntry)
    requires WellFormed(h) && DistinctStamps(h.entries) && StampsBelow(h.entries, e.createdAt)
    ensures DistinctStamps(Stored(h, e).entries)
  {
    match FindByHash(h.entries, e.hash)
    case Some(id) =>
      var k := FoundRow(h, e.hash, id);
      DistinctWithFront(h.entries, Updated(h.entries, id, e), Refreshed(h.entries[k], e));
    case None =>
      forall i | 0 <= i < |h.entries| ensures h.entries[i].lastUsedAt < e.createdAt {
        assert h.entries[i] in h.entries;
      }
  }

  lemma StoredPromotes(h: History, e: NewEntry)
    requires WellFormed(h) && DistinctStamps(h.entries) && StampsBelow(h.entries, e.createdAt)
    ensures DistinctStamps(Stored(h, e).entries)
    ensures Items(Ranked(Stored(h, e).entries)) == Promote(Items(Ranked(h.entries)), Item(e.hash, e.size))
  {
    match FindByHash(h.entries, e.hash)
    case Some(id) => RefreshedPromotes(h, e, id);
    case None =>
      AddedPromotes(h, Row(h.lastId + 1, e.hash, e.kind, e.labelText, e.preview, e.size, e.createdAt, e.createdAt));
  }

  lemma TouchedPromotes(h: History, k: nat, now: int)
    requires WellFormed(h) && DistinctStamps(h.entries) && StampsBelow(h.entries, now) && k < |h.entries|
    ensures DistinctStamps(Touched(h, h.entries[k].id, now).entries)
    ensures Items(Ranked(Touched(h, h.entries[k].id, now).entries))
         == Promote(Items(Ranked(h.entries)), Item(h.entries[k].hash, h.entries[k].size))
  {
    var front := h.entries[k].(lastUsedAt := now);
    RewritePromotes(h, Restamped(h.entries, h.entries[k].id, now), k, front);
  }

  // ----- the row an insert writes

  /** The row holds what was inserted. */
  predicate Holds(r: Row, e: NewEntry) {
    && r.hash == e.hash && r.kind == e.kind && r.labelText == e.labelText && r.preview == e.preview
    && r.size == e.size && r.lastUsedAt == e.createdAt
  }

  /** `id` answers for the entry with this hash: the old id of a known hash, or else an id larger than
      all before. */
  ghost predicate AnswersFor(h: History, hash: Bytes, id: nat) {
    || (exists r :: r in h.entries && r.id == id && r.hash == hash)
    || (id > h.lastId && forall r :: r in h.entries ==> r.hash != hash)
  }

  lemma StoredRows(h: History, e: NewEntry)
    requires WellFormed(h)
    ensures AnswersFor(h, e.hash, InsertedId(h, e))
    ensures forall r :: r in Stored(h, e).entries && r.hash == e.hash ==> r.id == InsertedId(h, e) && Holds(r, e)
    ensures forall r :: r in Stored(h, e).entries && r.hash == e.hash && r.id > h.lastId ==> r.createdAt == e.createdAt
    ensures forall r :: r in Stored(h, e).entries && r.hash != e.hash ==> r in h.entries
  {
    match FindByHash(h.entries, e.hash)
    case Some(id) =>
      var k := FoundRow(h, e.hash, id);
      assert h.entries[k] in h.entries;
      UpdatedRows(h, e, id, k);
    case None =>
  }

  lemma UpdatedRows(h: History, e: NewEntry, id: nat, k: nat)
    requires WellFormed(h) && k < |h.entries| && h.entries[k].id == id && h.entries[k].hash == e.hash
    ensures forall r :: r in Updated(h.entries, id, e) && r.hash == e.hash ==> r.id == id && Holds(r, e)
    ensures forall r :: r in Updated(h.entries, id, e) && r.hash != e.hash ==> r in h.entries
  {
    forall i | 0 <= i < |h.entries| && i != k
      ensures Updated(h.entries, id, e)[i] == h.entries[i] && h.entries[i].hash != e.hash
    {
      assert h.entries[i].id != id;
    }
    assert Updated(h.entries, id, e)[k] == Refreshed(h.entries[k], e);
  }

  lemma NewRowKeepsPayloads(h: History, e: NewEntry, t: History, r: Row)
    requires WellFormed(h) && FindByHash(h.entries, e.hash).None? && TrimsTo(Stored(h, e), t)
    requires r in t.entries && r.id == h.lastId + 1
    ensures PayloadsOf(t.payloads, r.id) == e.payloads
  {
    StoredPayloads(h, e);
    TrimExtends(Stored(h, e), t);
    assert SameEntry(Stored(h, e), t, r);
  }

  /** Whatever trimming leaves: the entry with the inserted hash has the answered id and says what was
      inserted; a new one was created now and has the payloads given, and a known one keeps its own. */
  lemma InsertedRow(h: History, e: NewEntry, t: History, r: Row)
    requires WellFormed(h) && TrimsTo(Stored(h, e), t) && r in t.entries && r.hash == e.hash
    ensures r.id == InsertedId(h, e) && Holds(r, e)
    ensures r.id > h.lastId ==> r.createdAt == e.createdAt && PayloadsOf(t.payloads, r.id) == e.payloads
    ensures r.id <= h.lastId ==> SameEntry(h, t, r)
  {
    StoredRows(h, e);
    TrimOnlyRemoves(Stored(h, e), t);
    StepExtends(h, Insert(e), t);
    if r.id > h.lastId {
      NewRowKeepsPayloads(h, e, t, r);
    }
  }

  /** What an insert answers, and what it leaves under that id. */
  ghost predicate Answered(h: History, e: NewEntry, t: History, id: nat) {
    && AnswersFor(h, e.hash, id)
    && forall r :: r in t.entries && r.hash == e.hash ==>
         && r.id == id && Holds(r, e)
         && (id > h.lastId ==> r.createdAt == e.createdAt && PayloadsOf(t.payloads, id) == e.payloads)
         && (id <= h.lastId ==> SameEntry(h, t, r))
  }

  lemma InsertAnswers(h: History, e: NewEntry, t: History)
    requires WellFormed(h) && TrimsTo(Stored(h, e), t)
    ensures Answered(h, e, t, InsertedId(h, e))
  {
    StoredRows(h, e);
    forall r | r in t.entries && r.hash == e.hash
      ensures r.id == InsertedId(h, e) && Holds(r, e)
      ensures r.id > h.lastId ==> r.createdAt == e.createdAt && PayloadsOf(t.payloads, r.id) == e.payloads
      ensures r.id <= h.lastId ==> SameEntry(h, t, r)
    {
      InsertedRow(h, e, t, r);
    }
  }
}
