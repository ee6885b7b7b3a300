/** The history store: the two tables as fields, and the statements its methods run on them. */
module Database {
  import opened Prelude
  import opened Recency
  import opened Tables
  import opened Ranking
  import opened Trimming
  import opened Refinement

  /** The bytes held by the `n` most recent rows. */
  function TopSize(rows: seq<Row>, n: nat): nat
    requires n <= |Ranked(rows)|
  {
    TotalSize(Items(Ranked(rows)[..n]))
  }

  /** Where deleting from the oldest end stops: `k` rows are left, and one more would be too much. */
  predicate BytesCut(rows: seq<Row>, bytes: int, k: nat) {
    && k <= |Ranked(rows)|
    && (k == 0 || TopSize(rows, k) <= bytes)
    && (k < |Ranked(rows)| ==> TopSize(rows, k + 1) > bytes)
  }

  /** `now` is `h` cut down to its `n` newest rows, of `remaining` bytes; `n + 1` would be too many. */
  ghost predicate CutTo(h: History, n: nat, now: History, remaining: int, limit: int) {
    && n <= |Ranked(h.entries)| && now == Retain(h, Ids(Ranked(h.entries)[..n]))
    && remaining == TopSize(h.entries, n)
    && (n < |Ranked(h.entries)| ==> TopSize(h.entries, n + 1) > limit)
  }

  class Database {
    var entries: seq<Row>
    var payloads: seq<PayloadRow>
    var lastId: nat
    var lastPayloadId: nat
    var maxEntries: U64
    var maxHistorySize: U64

    ghost function Contents(): History
      reads this
    {
      History(entries, payloads, lastId, lastPayloadId, maxEntries, maxHistorySize)
    }

    ghost predicate Valid()
      reads this
    {
      WellFormed(Contents())
    }

    constructor (maxEntries: U64, maxHistorySize: U64)
      ensures Valid() && Contents() == History([], [], 0, 0, maxEntries, maxHistorySize)
    {
      entries, payloads, lastId, lastPayloadId := [], [], 0, 0;
      this.maxEntries, this.maxHistorySize := maxEntries, maxHistorySize;
    }

    /** Keeps the rows with the given ids; their payloads go with them. */
    method KeepOnly(ids: set<nat>)
      modifies this`entries, this`payloads
      ensures Contents() == Retain(old(Contents()), ids)
    {
      entries := Where(entries, ids);
      payloads := Cascade(payloads, ids);
    }

    lemma KeepsValid(ids: set<nat>)
      ensures Valid() ==> WellFormed(Retain(Contents(), ids))
    {
      if Valid() {
        RetainKeepsWellFormed(Contents(), ids);
      }
    }

    method Delete(entryId: nat) returns (found: bool)
      modifies this`entries, this`payloads
      ensures old(Valid()) ==> Valid()
      ensures Contents() == Deleted(old(Contents()), entryId)
      ensures found <==> entryId in Ids(old(entries))
      ensures forall r :: r in entries <==> r in old(entries) && r.id != entryId
    {
      WhereMembers(entries, Ids(entries) - {entryId});
      KeepsValid(Ids(entries) - {entryId});
      found := entryId in Ids(entries);
      KeepOnly(Ids(entries) - {entryId});
    }

    method Clear() returns (n: nat)
      requires Valid()
      modifies this`entries, this`payloads
      ensures Valid() && Contents() == Cleared(old(Contents())) && n == |old(entries)|
      ensures entries == [] && payloads == []
    {
      NoRows(entries);
      NoPayloadRows(payloads);
      n := |entries|;
      KeepsValid({});
      KeepOnly({});
    }

    /** Drops all but the most recent rows, in whatever order SQL breaks ties. */
    method TrimCount() returns (ghost order: seq<Row>)
      requires Valid()
      modifies this`entries, this`payloads
      ensures Valid() && RecencyOrder(order, old(entries))
      ensures Contents() == Retain(old(Contents()), Ids(TopOf(order, AsI64(maxEntries))))
      ensures multiset(entries) == multiset(TopOf(order, AsI64(maxEntries)))
    {
      RankedIsRecencyOrder(entries);
      var selected :| RecencyOrder(selected, entries);
      order := selected;
      assert RecencyOrder(selected, entries);
      var top := TopOf(selected, AsI64(maxEntries));
      RowsOfFront(entries, selected, |top|);
      KeepsValid(Ids(top));
      KeepOnly(Ids(top));
    }

    /** The rows left are the `n` most recent of `h`. */
    ghost predicate Keeps(h: History, n: nat)
      reads this
    {
      n <= |Ranked(h.entries)| && Contents() == Retain(h, Ids(Ranked(h.entries)[..n]))
    }

    /** `n` rows are left, of `remaining` bytes, and with one more there would be too many. */
    ghost predicate Cutting(h: History, n: nat, remaining: int, limit: int)
      reads this
    {
      CutTo(h, n, Contents(), remaining, limit)
    }

    /** Deletes the oldest row that is left. */
    method DropOldest(ghost h: History, oldest: Row, ghost left: nat, remaining: int, ghost limit: int)
        returns (less: int)
      requires WellFormed(h) && Cutting(h, left + 1, remaining, limit) && remaining > limit
      requires oldest == Ranked(h.entries)[left]
      modifies this`entries, this`payloads
      ensures Cutting(h, left, less, limit)
    {
      CutOneMore(h, left, Contents(), remaining, limit);
      var _ := Delete(oldest.id);
      less := remaining - oldest.size;
    }

    /** Deletes the oldest rows one by one until the rest is small enough. */
    method TrimBytes() returns (ghost k: nat)
      requires Valid()
      modifies this`entries, this`payloads
      ensures Valid() && Keeps(old(Contents()), k)
      ensures BytesCut(old(entries), AsI64(maxHistorySize), k)
    {
      ghost var h := Contents();
      var limit := AsI64(maxHistorySize);
      var remaining := TotalSize(Items(entries));
      var newestFirst := Ranked(entries);
      var left: nat := |newestFirst|;
      WholeRankingKept(h);
      while left > 0 && remaining > limit
        invariant left <= |newestFirst| && newestFirst == Ranked(h.entries)
        invariant WellFormed(h) && Cutting(h, left, remaining, limit)
      {
        left := left - 1;
        remaining := DropOldest(h, newestFirst[left], left, remaining, limit);
      }
      k := left;
      RetainKeepsWellFormed(h, Ids(newestFirst[..left]));
    }

    /** Enforces both limits: what is left is the longest recency-ordered prefix that fits them, in an
        order that SQL may choose among ties. */
    method Trim()
      requires Valid()
      modifies this`entries, this`payloads
      ensures Valid() && TrimsTo(old(Contents()), Contents())
    {
      ghost var h := Contents();
      ghost var order := TrimCount();
      ghost var m := Contents();
      ghost var k := TrimBytes();
      TwoCutsTrim(h, order, m, k);
    }

    /** Stores an entry, or refreshes the one with the same hash, and trims. */
    method Insert(e: NewEntry) returns (id: nat)
      requires Valid()
      modifies this
      ensures Valid() && id == InsertedId(old(Contents()), e)
      ensures TrimsTo(Stored(old(Contents()), e), Contents())
      ensures Answered(old(Contents()), e, Contents(), id)
    {
      ghost var h := Contents();
      StoredKeepsWellFormed(h, e);
      var known := FindByHash(entries, e.hash);
      if known.Some? {
        id := known.value;
        entries := Updated(entries, id, e);
      } else {
        lastId := lastId + 1;
        id := lastId;
        entries := entries + [Row(id, e.hash, e.kind, e.labelText, e.preview, e.size, e.createdAt, e.createdAt)];
        for i := 0 to |e.payloads|
          invariant entries == Stored(h, e).entries && lastId == h.lastId + 1 == id
          invariant maxEntries == h.maxEntries && maxHistorySize == h.maxHistorySize
          invariant lastPayloadId == h.lastPayloadId + i
          invariant payloads == h.payloads + PayloadRows(id, h.lastPayloadId, e.payloads)[..i]
        {
          lastPayloadId := lastPayloadId + 1;
          payloads := payloads + [PayloadRow(lastPayloadId, id, e.payloads[i])];
        }
      }
      assert Contents() == Stored(h, e);
      Trim();
      InsertAnswers(h, e, Contents());
    }

    method TouchLastUsed(entryId: nat, now: int)
      requires Valid()
      modifies this`entries
      ensures Valid() && Contents() == Touched(old(Contents()), entryId, now)
      ensures |entries| == |old(entries)|
      ensures forall i :: 0 <= i < |entries| ==>
          entries[i] == if old(entries)[i].id == entryId then old(entries)[i].(lastUsedAt := now) else old(entries)[i]
    {
      RewriteKeepsWellFormed(Contents(), Restamped(entries, entryId, now));
      entries := Restamped(entries, entryId, now);
    }

    method SetLimits(maxEntries: U64, maxHistorySize: U64)
      requires Valid()
      modifies this
      ensures Valid()
      ensures TrimsTo(old(Contents()).(maxEntries := maxEntries, maxHistorySize := maxHistorySize), Contents())
    {
      this.maxEntries := maxEntries;
      this.maxHistorySize := maxHistorySize;
      Trim();
    }

    /** The most recent rows, newest first, in whatever order SQL breaks ties. */
    method List(limit: U64) returns (rows: seq<Row>)
      requires Valid()
      ensures exists order :: RecencyOrder(order, entries) && rows == TopOf(order, AsI64(limit))
      ensures DistinctStamps(entries) ==> rows == Listed(Contents(), limit)
    {
      RankedIsRecencyOrder(entries);
      var order :| RecencyOrder(order, entries);
      assert RecencyOrder(order, entries);
      rows := TopOf(order, AsI64(limit));
      if DistinctStamps(entries) {
        RecencyOrderUnique(entries, order);
      }
    }

    method GetHash(entryId: nat) returns (hash: Option<Bytes>)
      requires Valid()
      ensures hash.Some? ==> exists r :: r in entries && r.id == entryId && r.hash == hash.value
      ensures hash.None? ==> entryId !in Ids(entries)
    {
      for i := 0 to |entries|
        invariant forall j :: 0 <= j < i ==> entries[j].id != entryId
      {
        if entries[i].id == entryId {
          return Some(entries[i].hash);
        }
      }
      hash := None;
    }

    /** The payloads whose rows name the entry, in the order of the rows' ids. */
    method GetRawPayloads(entryId: nat) returns (found: seq<Payload>)
      ensures found == PayloadsOf(payloads, entryId)
      ensures forall p :: p in found <==> exists r :: r in payloads && r.entryId == entryId && r.payload == p
    {
      found := [];
      for i := 0 to |payloads|
        invariant found + PayloadsOf(payloads[i..], entryId) == PayloadsOf(payloads, entryId)
      {
        assert payloads[i..][1..] == payloads[i + 1..];
        if payloads[i].entryId == entryId {
          found := found + [payloads[i].payload];
        }
      }
      PayloadsOfMembers(payloads, entryId);
    }
  }

  // ----- lemmas used by the methods

  lemma {:induction false} PayloadsOfMembers(payloads: seq<PayloadRow>, entryId: nat)
    ensures forall p :: p in PayloadsOf(payloads, entryId)
                <==> exists r :: r in payloads && r.entryId == entryId && r.payload == p
  {
    if payloads != [] {
      PayloadsOfMembers(payloads[1..], entryId);
      assert payloads == [payloads[0]] + payloads[1..];
    }
  }

  lemma {:induction false} NoRows(rows: seq<Row>)
    ensures Where(rows, {}) == []
  {
    if rows != [] {
      NoRows(rows[1..]);
    }
  }

  lemma {:induction false} NoPayloadRows(payloads: seq<PayloadRow>)
    ensures Cascade(payloads, {}) == []
  {
    if payloads != [] {
      NoPayloadRows(payloads[1..]);
    }
  }

  lemma WholeRankingKept(h: History)
    requires WellFormed(h)
    ensures Retain(h, Ids(Ranked(h.entries)[..|Ranked(h.entries)|])) == h
    ensures TopSize(h.entries, |Ranked(h.entries)|) == TotalSize(Items(h.entries))
  {
    WholeOrder(h, Ranked(h.entries));
    assert Ranked(h.entries)[..|Ranked(h.entries)|] == Ranked(h.entries);
  }

  /** Deleting the oldest row left shortens the retained prefix by one. */
  lemma DeleteOldest(h: History, order: seq<Row>, k: nat)
    requires WellFormed(h) && multiset(order) == multiset(h.entries) && k < |order|
    ensures Deleted(Retain(h, Ids(order[..k + 1])), order[k].id) == Retain(h, Ids(order[..k]))
  {
    var a, c := Ids(order[..k + 1]), Ids(order[..k]);
    OrderIdsDiffer(h.entries, order);
    assert order[..k + 1] == order[..k] + [order[k]];
    assert a == c + {order[k].id} && order[k].id !in c;
    WhereMembers(h.entries, a);
    var b := Ids(Where(h.entries, a)) - {order[k].id};
    RetainTwice(h, a, b, c);
  }

  lemma CutOneMore(h: History, k: nat, now: History, remaining: int, limit: int)
    requires WellFormed(h) && CutTo(h, k + 1, now, remaining, limit) && remaining > limit
    ensures CutTo(h, k, Deleted(now, Ranked(h.entries)[k].id), remaining - Ranked(h.entries)[k].size, limit)
  {
    DeleteOldest(h, Ranked(h.entries), k);
    TopSizeStep(h.entries, k);
  }

  lemma TopSizeStep(rows: seq<Row>, k: nat)
    requires k < |Ranked(rows)|
    ensures TopSize(rows, k + 1) == TopSize(rows, k) + Ranked(rows)[k].size
  {
    LastItem(Ranked(rows), k);
  }

  lemma LastItem(rows: seq<Row>, k: nat)
    requires k < |rows|
    ensures TotalSize(Items(rows[..k + 1])) == TotalSize(Items(rows[..k])) + rows[k].size
  {
    TotalWithout(rows[..k + 1], k);
    assert rows[..k + 1][..k] + rows[..k + 1][k + 1..] == rows[..k];
  }
}
