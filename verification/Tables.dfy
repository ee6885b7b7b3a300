/** The history tables as values, the statements run on them, and what every statement keeps. */
module Tables {
  import opened Prelude
  import opened Recency

  datatype Kind = Text | Uri | File | Image | Other

  datatype Row = Row(
    id: nat, hash: Bytes, kind: Kind, labelText: Bytes, preview: Bytes, size: nat, createdAt: int, lastUsedAt: int)

  datatype PayloadRow = PayloadRow(id: nat, entryId: nat, payload: Payload)

  datatype NewEntry = NewEntry(
    hash: Bytes, kind: Kind, labelText: Bytes, preview: Bytes, size: nat, createdAt: int, payloads: seq<Payload>)

  /** `usize` and `u64` on the platforms the daemon runs on. */
  type U64 = n: int | 0 <= n < 0x1_0000_0000_0000_0000

  /** Both tables in rowid order, the AUTOINCREMENT counters, and the limits in force. */
  datatype History = History(
    entries: seq<Row>,
    payloads: seq<PayloadRow>,
    lastId: nat,
    lastPayloadId: nat,
    maxEntries: U64,
    maxHistorySize: U64)

  /** The `as i64` cast: values of 2^63 and above wrap to negative ones. */
  function AsI64(n: U64): int {
    if n < 0x8000_0000_0000_0000 then n else n - 0x1_0000_0000_0000_0000
  }

  function EffectiveBounds(maxEntries: U64, maxHistorySize: U64): Bounds {
    Bounds(AsI64(maxEntries), AsI64(maxHistorySize))
  }

  function BoundsOf(h: History): Bounds { EffectiveBounds(h.maxEntries, h.maxHistorySize) }

  // ----- selecting and deleting rows

  function Ids(rows: seq<Row>): set<nat> { set r | r in rows :: r.id }

  /** The rows whose id is among `ids`. */
  function Where(rows: seq<Row>, ids: set<nat>): (s: seq<Row>) {
    if rows == [] then [] else (if rows[0].id in ids then [rows[0]] else []) + Where(rows[1..], ids)
  }

  /** ON DELETE CASCADE: the payload rows of entries that are still there. */
  function Cascade(payloads: seq<PayloadRow>, ids: set<nat>): (s: seq<PayloadRow>) {
    if payloads == [] then []
    else (if payloads[0].entryId in ids then [payloads[0]] else []) + Cascade(payloads[1..], ids)
  }

  /** Keeps the entries among `ids`, and their payloads. */
  function Retain(h: History, ids: set<nat>): History {
    h.(entries := Where(h.entries, ids), payloads := Cascade(h.payloads, ids))
  }

  function PayloadsOf(payloads: seq<PayloadRow>, entryId: nat): (s: seq<Payload>) {
    if payloads == [] then []
    else (if payloads[0].entryId == entryId then [payloads[0].payload] else []) + PayloadsOf(payloads[1..], entryId)
  }

  function FindByHash(rows: seq<Row>, hash: Bytes): (r: Option<nat>)
    ensures r.Some? ==> exists x :: x in rows && x.id == r.value && x.hash == hash
    ensures r.None? ==> forall x :: x in rows ==> x.hash != hash
  {
    if rows == [] then None
    else if rows[0].hash == hash then Some(rows[0].id)
    else FindByHash(rows[1..], hash)
  }

  // ----- recency

  /** Later use first; of two rows used at the same instant, the later row first. */
  predicate Before(r: Row, s: Row) {
    r.lastUsedAt > s.lastUsedAt || (r.lastUsedAt == s.lastUsedAt && r.id >= s.id)
  }

  function RankInsert(r: Row, s: seq<Row>): (t: seq<Row>)
    ensures multiset(t) == multiset(s) + multiset{r}
  {
    if s == [] || Before(r, s[0]) then [r] + s
    else
      assert s == [s[0]] + s[1..];
      [s[0]] + RankInsert(r, s[1..])
  }

  /** The rows in descending order of use; reversed, `ORDER BY last_used_at ASC, id ASC`. */
  function Ranked(rows: seq<Row>): (t: seq<Row>)
    ensures multiset(t) == multiset(rows)
  {
    if rows == [] then []
    else
      assert rows == [rows[0]] + rows[1..];
      RankInsert(rows[0], Ranked(rows[1..]))
  }

  /** An answer SQL may give to `ORDER BY last_used_at DESC`, which leaves ties open. */
  predicate RecencyOrder(order: seq<Row>, rows: seq<Row>) {
    multiset(order) == multiset(rows) && forall i, j :: 0 <= i < j < |order| ==>
        order[i].lastUsedAt >= order[j].lastUsedAt
  }

  predicate DistinctStamps(rows: seq<Row>) {
    forall i, j :: 0 <= i < j < |rows| ==> rows[i].lastUsedAt != rows[j].lastUsedAt
  }

  predicate NewestFirst(rows: seq<Row>) {
    forall i, j :: 0 <= i < j < |rows| ==> rows[i].lastUsedAt > rows[j].lastUsedAt
  }

  function Items(rows: seq<Row>): (l: seq<Item>)
    ensures |l| == |rows| && forall i :: 0 <= i < |rows| ==> l[i] == Item(rows[i].hash, rows[i].size)
  {
    seq(|rows|, i requires 0 <= i < |rows| => Item(rows[i].hash, rows[i].size))
  }

  // ----- the statements as functions

  /** How many rows at the front of an order fit the limits. */
  function Fitting(order: seq<Row>, b: Bounds): (n: nat)
    ensures n <= |order|
  {
    FitPrefixIsPrefix(Items(order), b);
    |FitPrefix(Items(order), b)|
  }

  /** The rows `LIMIT count` selects from an order. */
  function TopOf(order: seq<Row>, count: int): (top: seq<Row>)
    ensures |top| <= |order| && top == order[..|top|]
  {
    if count < 0 || count >= |order| then order else order[..count]
  }

  predicate Descends(rows: seq<Row>) {
    forall i, j :: 0 <= i < j < |rows| ==> Before(rows[i], rows[j])
  }

  /** An order that trimming may go by.  Which of several rows used at the same instant come within the
      count is left to SQL; among those that do, the order by id decides. */
  ghost predicate TrimOrder(order: seq<Row>, rows: seq<Row>, count: int) {
    RecencyOrder(order, rows) && Descends(TopOf(order, count))
  }

  /** Trimming may turn `h` into `t`: what stays is the longest recency-ordered prefix that fits both
      limits, in one of the orders trimming may go by. */
  ghost predicate TrimsTo(h: History, t: History) {
    exists order :: TrimOrder(order, h.entries, BoundsOf(h).count)
        && t == Retain(h, Ids(order[..Fitting(order, BoundsOf(h))]))
  }

  /** How many of the most recent rows trimming keeps when ties are broken by id. */
  function KeptCount(rows: seq<Row>, b: Bounds): (n: nat)
    ensures n <= |Ranked(rows)|
  {
    Fitting(Ranked(rows), b)
  }

  function Trimmed(h: History): History {
    Retain(h, Ids(Ranked(h.entries)[..KeptCount(h.entries, BoundsOf(h))]))
  }

  /** A duplicate keeps its id, hash and creation time. */
  function Refreshed(r: Row, e: NewEntry): Row {
    r.(kind := e.kind, labelText := e.labelText, preview := e.preview, size := e.size, lastUsedAt := e.createdAt)
  }

  function Updated(rows: seq<Row>, id: nat, e: NewEntry): (s: seq<Row>)
    ensures |s| == |rows|
    ensures forall i :: 0 <= i < |rows| ==> s[i] == (if rows[i].id == id then Refreshed(rows[i], e) else rows[i])
  {
    seq(|rows|, i requires 0 <= i < |rows| => if rows[i].id == id then Refreshed(rows[i], e) else rows[i])
  }

  function PayloadRows(entryId: nat, after: nat, payloads: seq<Payload>): (s: seq<PayloadRow>)
    ensures |s| == |payloads|
    ensures forall i :: 0 <= i < |s| ==> s[i] == PayloadRow(after + 1 + i, entryId, payloads[i])
  {
    seq(|payloads|, i requires 0 <= i < |payloads| => PayloadRow(after + 1 + i, entryId, payloads[i]))
  }

  /** The tables after the insert or update, before trimming. */
  function Stored(h: History, e: NewEntry): History {
    match FindByHash(h.entries, e.hash)
    case Some(id) => h.(entries := Updated(h.entries, id, e))
    case None =>
      var id := h.lastId + 1;
      h.(entries := h.entries + [Row(id, e.hash, e.kind, e.labelText, e.preview, e.size, e.createdAt, e.createdAt)],
         payloads := h.payloads + PayloadRows(id, h.lastPayloadId, e.payloads),
         lastId := id,
         lastPayloadId := h.lastPayloadId + |e.payloads|)
  }

  function Inserted(h: History, e: NewEntry): History { Trimmed(Stored(h, e)) }

  function InsertedId(h: History, e: NewEntry): nat {
    match FindByHash(h.entries, e.hash)
    case Some(id) => id
    case None => h.lastId + 1
  }

  function Restamped(rows: seq<Row>, id: nat, now: int): (s: seq<Row>)
    ensures |s| == |rows|
    ensures forall i :: 0 <= i < |rows| ==> s[i] == (if rows[i].id == id then rows[i].(lastUsedAt := now) else rows[i])
  {
    seq(|rows|, i requires 0 <= i < |rows| => if rows[i].id == id then rows[i].(lastUsedAt := now) else rows[i])
  }

  function Touched(h: History, id: nat, now: int): History { h.(entries := Restamped(h.entries, id, now)) }

  function Deleted(h: History, id: nat): History { Retain(h, Ids(h.entries) - {id}) }

  function Cleared(h: History): History { Retain(h, {}) }

  function Limited(h: History, maxEntries: U64, maxHistorySize: U64): History {
    Trimmed(h.(maxEntries := maxEntries, maxHistorySize := maxHistorySize))
  }

  function Listed(h: History, limit: U64): seq<Row> {
    var n := AsI64(limit);
    if n < 0 || n >= |Ranked(h.entries)| then Ranked(h.entries) else Ranked(h.entries)[..n]
  }

  // ----- what holds of the tables at all times

  predicate IdsAscend(rows: seq<Row>) {
    forall i, j :: 0 <= i < j < |rows| ==> rows[i].id < rows[j].id
  }

  predicate HashesDiffer(rows: seq<Row>) {
    forall i, j :: 0 <= i < j < |rows| ==> rows[i].hash != rows[j].hash
  }

  predicate PayloadIdsAscend(payloads: seq<PayloadRow>) {
    forall i, j :: 0 <= i < j < |payloads| ==> payloads[i].id < payloads[j].id
  }

  ghost predicate EntriesOk(rows: seq<Row>, lastId: nat) {
    IdsAscend(rows) && HashesDiffer(rows) && forall r :: r in rows ==> 0 < r.id <= lastId
  }

  ghost predicate PayloadsOk(payloads: seq<PayloadRow>, ids: set<nat>, lastPayloadId: nat) {
    PayloadIdsAscend(payloads) && forall p :: p in payloads ==> p.entryId in ids && p.id <= lastPayloadId
  }

  /** Ids and hashes are unique, ids come from the counters, and no payload row is orphaned. */
  ghost predicate WellFormed(h: History) {
    EntriesOk(h.entries, h.lastId) && PayloadsOk(h.payloads, Ids(h.entries), h.lastPayloadId)
  }

  // ----- facts about selection

  lemma {:induction false} WhereMembers(rows: seq<Row>, ids: set<nat>)
    ensures forall r :: r in Where(rows, ids) <==> r in rows && r.id in ids
    ensures |Where(rows, ids)| <= |rows|
  {
    if rows != [] {
      WhereMembers(rows[1..], ids);
      assert rows == [rows[0]] + rows[1..];
    }
  }

  lemma {:induction false} CascadeMembers(payloads: seq<PayloadRow>, ids: set<nat>)
    ensures forall p :: p in Cascade(payloads, ids) <==> p in payloads && p.entryId in ids
  {
    if payloads != [] {
      CascadeMembers(payloads[1..], ids);
      assert payloads == [payloads[0]] + payloads[1..];
    }
  }

  lemma {:induction false} WhereAscends(rows: seq<Row>, ids: set<nat>)
    requires IdsAscend(rows)
    ensures IdsAscend(Where(rows, ids))
  {
    if rows != [] {
      WhereAscends(rows[1..], ids);
      WhereMembers(rows[1..], ids);
      var rest := Where(rows[1..], ids);
      forall j | 0 <= j < |rest| ensures rows[0].id < rest[j].id {
        assert rest[j] in rest;
        var k :| 0 <= k < |rows[1..]| && rows[1..][k] == rest[j];
      }
    }
  }

  lemma {:induction false} WhereKeepsHashes(rows: seq<Row>, ids: set<nat>)
    requires HashesDiffer(rows)
    ensures HashesDiffer(Where(rows, ids))
  {
    if rows != [] {
      WhereKeepsHashes(rows[1..], ids);
      WhereMembers(rows[1..], ids);
      var rest := Where(rows[1..], ids);
      forall j | 0 <= j < |rest| ensures rows[0].hash != rest[j].hash {
        assert rest[j] in rest;
        var k :| 0 <= k < |rows[1..]| && rows[1..][k] == rest[j];
      }
    }
  }

  lemma {:induction false} CascadeKeepsOrder(payloads: seq<PayloadRow>, ids: set<nat>)
    requires PayloadIdsAscend(payloads)
    ensures PayloadIdsAscend(Cascade(payloads, ids))
  {
    if payloads != [] {
      CascadeKeepsOrder(payloads[1..], ids);
      CascadeMembers(payloads[1..], ids);
      var rest := Cascade(payloads[1..], ids);
      forall j | 0 <= j < |rest| ensures payloads[0].id < rest[j].id {
        assert rest[j] in rest;
        var k :| 0 <= k < |payloads[1..]| && payloads[1..][k] == rest[j];
      }
    }
  }

  lemma {:induction false} WhereTwice(rows: seq<Row>, a: set<nat>, b: set<nat>, c: set<nat>)
    requires forall r :: r in rows ==> (r.id in c <==> r.id in a && r.id in b)
    ensures Where(Where(rows, a), b) == Where(rows, c)
  {
    if rows != [] {
      WhereTwice(rows[1..], a, b, c);
      assert rows[0] in rows;
      if rows[0].id in a {
        assert Where(rows, a)[1..] == Where(rows[1..], a);
      } else {
        assert Where(rows, a) == Where(rows[1..], a);
      }
    }
  }

  lemma {:induction false} CascadeTwice(payloads: seq<PayloadRow>, a: set<nat>, b: set<nat>, c: set<nat>)
    requires forall p :: p in payloads ==> (p.entryId in c <==> p.entryId in a && p.entryId in b)
    ensures Cascade(Cascade(payloads, a), b) == Cascade(payloads, c)
  {
    if payloads != [] {
      CascadeTwice(payloads[1..], a, b, c);
      assert payloads[0] in payloads;
      if payloads[0].entryId in a {
        assert Cascade(payloads, a)[1..] == Cascade(payloads[1..], a);
      } else {
        assert Cascade(payloads, a) == Cascade(payloads[1..], a);
      }
    }
  }

  /** Two deletions in a row are one. */
  lemma RetainTwice(h: History, a: set<nat>, b: set<nat>, c: set<nat>)
    requires WellFormed(h) && forall r :: r in h.entries ==> (r.id in c <==> r.id in a && r.id in b)
    ensures Retain(Retain(h, a), b) == Retain(h, c)
  {
    WhereTwice(h.entries, a, b, c);
    forall p | p in h.payloads ensures p.entryId in c <==> p.entryId in a && p.entryId in b {
      assert p.entryId in Ids(h.entries);
    }
    CascadeTwice(h.payloads, a, b, c);
  }

  lemma {:induction false} RetainAll(h: History)
    requires WellFormed(h)
    ensures Retain(h, Ids(h.entries)) == h
  {
    WhereAll(h.entries, Ids(h.entries));
    CascadeAll(h.payloads, Ids(h.entries));
  }

  lemma {:induction false} WhereAll(rows: seq<Row>, ids: set<nat>)
    requires forall r :: r in rows ==> r.id in ids
    ensures Where(rows, ids) == rows
  {
    if rows != [] {
      WhereAll(rows[1..], ids);
      assert rows[0] in rows;
    }
  }

  lemma {:induction false} CascadeAll(payloads: seq<PayloadRow>, ids: set<nat>)
    requires forall p :: p in payloads ==> p.entryId in ids
    ensures Cascade(payloads, ids) == payloads
  {
    if payloads != [] {
      CascadeAll(payloads[1..], ids);
      assert payloads[0] in payloads;
    }
  }

  lemma {:induction false} CascadeKeepsPayloadsOf(payloads: seq<PayloadRow>, ids: set<nat>, entryId: nat)
    requires entryId in ids
    ensures PayloadsOf(Cascade(payloads, ids), entryId) == PayloadsOf(payloads, entryId)
  {
    if payloads != [] {
      CascadeKeepsPayloadsOf(payloads[1..], ids, entryId);
      if payloads[0].entryId in ids {
        assert Cascade(payloads, ids)[1..] == Cascade(payloads[1..], ids);
      } else {
        assert Cascade(payloads, ids) == Cascade(payloads[1..], ids);
      }
    }
  }

  // ----- every statement keeps the tables well formed

  lemma RetainKeepsWellFormed(h: History, ids: set<nat>)
    requires WellFormed(h)
    ensures WellFormed(Retain(h, ids))
  {
    WhereAscends(h.entries, ids);
    WhereKeepsHashes(h.entries, ids);
    CascadeKeepsOrder(h.payloads, ids);
    WhereMembers(h.entries, ids);
    CascadeMembers(h.payloads, ids);
    forall p | p in Cascade(h.payloads, ids) ensures p.entryId in Ids(Where(h.entries, ids)) {
      assert p.entryId in Ids(h.entries);
      var r :| r in h.entries && r.id == p.entryId;
      assert r in Where(h.entries, ids);
    }
  }

  lemma SameIds(a: seq<Row>, b: seq<Row>)
    requires |a| == |b| && forall i :: 0 <= i < |a| ==> a[i].id == b[i].id
    ensures Ids(a) == Ids(b)
  {
    forall n ensures n in Ids(a) <==> n in Ids(b) {
      if n in Ids(a) {
        var i :| 0 <= i < |a| && a[i].id == n;
        assert b[i] in b;
      }
      if n in Ids(b) {
        var i :| 0 <= i < |b| && b[i].id == n;
        assert a[i] in a;
      }
    }
  }

  lemma RewriteKeepsWellFormed(h: History, rows: seq<Row>)
    requires WellFormed(h)
    requires |rows| == |h.entries| && forall i :: 0 <= i < |rows| ==>
               rows[i].id == h.entries[i].id && rows[i].hash == h.entries[i].hash
    ensures WellFormed(h.(entries := rows))
  {
    SameIds(h.entries, rows);
    forall r | r in rows ensures 0 < r.id <= h.lastId {
      var i :| 0 <= i < |rows| && rows[i] == r;
      assert h.entries[i] in h.entries;
    }
  }

  lemma AppendKeepsEntriesOk(rows: seq<Row>, lastId: nat, added: Row)
    requires EntriesOk(rows, lastId) && added.id == lastId + 1
    requires forall r :: r in rows ==> r.hash != added.hash
    ensures EntriesOk(rows + [added], lastId + 1)
  {
    forall i | 0 <= i < |rows| ensures rows[i].id < added.id && rows[i].hash != added.hash {
      assert rows[i] in rows;
    }
  }

  lemma IdsOfAppend(rows: seq<Row>, added: Row)
    ensures Ids(rows + [added]) == Ids(rows) + {added.id}
  {
    forall n ensures n in Ids(rows + [added]) <==> n in Ids(rows) + {added.id} {
      if n in Ids(rows) {
        var r :| r in rows && r.id == n;
        assert r in rows + [added];
      }
      assert (rows + [added])[|rows|] == added;
    }
  }

  lemma PayloadRowsKeepOk(payloads: seq<PayloadRow>, ids: set<nat>, entryId: nat, last: nat, added: seq<Payload>)
    requires PayloadsOk(payloads, ids, last)
    ensures PayloadsOk(payloads + PayloadRows(entryId, last, added), ids + {entryId}, last + |added|)
  {
    forall i | 0 <= i < |payloads| ensures payloads[i].id <= last {
      assert payloads[i] in payloads;
    }
  }

  lemma AddedKeepsWellFormed(h: History, added: Row, payloads: seq<Payload>)
    requires WellFormed(h) && added.id == h.lastId + 1 && forall r :: r in h.entries ==> r.hash != added.hash
    ensures WellFormed(h.(entries := h.entries + [added],
                          payloads := h.payloads + PayloadRows(added.id, h.lastPayloadId, payloads),
                          lastId := added.id, lastPayloadId := h.lastPayloadId + |payloads|))
  {
    AppendKeepsEntriesOk(h.entries, h.lastId, added);
    IdsOfAppend(h.entries, added);
    PayloadRowsKeepOk(h.payloads, Ids(h.entries), added.id, h.lastPayloadId, payloads);
  }

  lemma StoredKeepsWellFormed(h: History, e: NewEntry)
    requires WellFormed(h)
    ensures WellFormed(Stored(h, e))
  {
    match FindByHash(h.entries, e.hash)
    case Some(id) => RewriteKeepsWellFormed(h, Updated(h.entries, id, e));
    case None =>
      var row := Row(h.lastId + 1, e.hash, e.kind, e.labelText, e.preview, e.size, e.createdAt, e.createdAt);
      AddedKeepsWellFormed(h, row, e.payloads);
      assert Stored(h, e) == h.(entries := h.entries + [row],
                                payloads := h.payloads + PayloadRows(row.id, h.lastPayloadId, e.payloads),
                                lastId := row.id, lastPayloadId := h.lastPayloadId + |e.payloads|);
  }
}
