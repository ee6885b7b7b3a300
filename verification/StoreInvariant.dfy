/** What the watcher and the server together keep true of the store. */
module StoreInvariant {
  import opened Prelude
  import opened Recency
  import opened Tables
  import opened Trimming
  import opened Refinement
  import opened Watcher
  import opened Echo
  import opened Protocol

  /** The table is within its limits, as it is after every trim. */
  predicate RowsFit(h: History) {
    h.entries == [] || Fits(Items(h.entries), BoundsOf(h))
  }

  /** Kind, label, preview and size of the row are those of an entry with these payloads. */
  predicate Agrees(c: Setting, ps: seq<Payload>, r: Row) {
    var e := EntryFor(c.env, ps, r.lastUsedAt);
    r.kind == e.kind && r.labelText == e.labelText && r.preview == e.preview && r.size == e.size
  }

  /** A capture with the hash of the row, which the row describes. */
  ghost predicate DescribedBy(c: Setting, qs: seq<Payload>, r: Row) {
    Capturable(qs) && (c.known)(qs) && r.hash == HashOf(c.env, qs) && Agrees(c, qs, r)
  }

  /** The stored payloads are a capture with the hash of the row, and the row describes a capture with
      that hash: the last one, which need not be the one whose payloads are stored. */
  ghost predicate RowFaithful(c: Setting, payloads: seq<PayloadRow>, r: Row) {
    var ps := PayloadsOf(payloads, r.id);
    && Capturable(ps) && (c.known)(ps) && r.hash == HashOf(c.env, ps)
    && exists qs :: DescribedBy(c, qs, r)
  }

  ghost predicate Faithful(c: Setting, h: History) {
    forall r {:trigger RowFaithful(c, h.payloads, r)} :: r in h.entries ==> RowFaithful(c, h.payloads, r)
  }

  /** No clock is needed for any of this: stamps may tie or come late. */
  ghost predicate StoreInv(c: Setting, h: History) {
    WellFormed(h) && RowsFit(h) && Faithful(c, h)
  }

  lemma {:induction false} WhereIsSmaller(rows: seq<Row>, ids: set<nat>)
    ensures |Where(rows, ids)| <= |rows| && TotalSize(Items(Where(rows, ids))) <= TotalSize(Items(rows))
  {
    if rows != [] {
      WhereIsSmaller(rows[1..], ids);
      assert Items(rows)[1..] == Items(rows[1..]);
      if rows[0].id in ids {
        assert Where(rows, ids)[1..] == Where(rows[1..], ids);
        assert Items(Where(rows, ids))[1..] == Items(Where(rows[1..], ids));
      } else {
        assert Where(rows, ids) == Where(rows[1..], ids);
      }
    }
  }

  // ----- statements that only remove

  lemma RetainKeepsFaithful(c: Setting, h: History, ids: set<nat>)
    requires Faithful(c, h)
    ensures Faithful(c, Retain(h, ids))
  {
    WhereMembers(h.entries, ids);
    forall r | r in Where(h.entries, ids) ensures RowFaithful(c, Cascade(h.payloads, ids), r) {
      assert RowFaithful(c, h.payloads, r);
      CascadeKeepsPayloadsOf(h.payloads, ids, r.id);
    }
  }

  lemma RetainKeepsInv(c: Setting, h: History, ids: set<nat>)
    requires StoreInv(c, h)
    ensures StoreInv(c, Retain(h, ids))
  {
    RetainKeepsWellFormed(h, ids);
    RetainKeepsFaithful(c, h, ids);
    WhereIsSmaller(h.entries, ids);
  }

  lemma TrimKeepsInv(c: Setting, h: History, t: History)
    requires WellFormed(h) && Faithful(c, h) && TrimsTo(h, t)
    ensures StoreInv(c, t)
  {
    var b := BoundsOf(h);
    var order :| TrimOrder(order, h.entries, b.count) && t == Retain(h, Ids(order[..Fitting(order, b)]));
    RetainKeepsFaithful(c, h, Ids(order[..Fitting(order, b)]));
    TrimFacts(h, t);
  }

  lemma LimitKeepsInv(c: Setting, h: History, n: U64, m: U64, t: History)
    requires StoreInv(c, h) && TrimsTo(h.(maxEntries := n, maxHistorySize := m), t)
    ensures StoreInv(c, t)
  {
    var l := h.(maxEntries := n, maxHistorySize := m);
    forall r | r in l.entries ensures RowFaithful(c, l.payloads, r) {
      assert RowFaithful(c, h.payloads, r);
    }
    TrimKeepsInv(c, l, t);
  }

  // ----- touching

  lemma TouchKeepsInv(c: Setting, h: History, id: nat, now: int)
    requires StoreInv(c, h)
    ensures StoreInv(c, Touched(h, id, now))
  {
    var t := Touched(h, id, now);
    RewriteKeepsWellFormed(h, t.entries);
    assert Items(t.entries) == Items(h.entries);
    forall r | r in t.entries ensures RowFaithful(c, t.payloads, r) {
      var i :| 0 <= i < |t.entries| && t.entries[i] == r;
      assert h.entries[i] in h.entries && RowFaithful(c, h.payloads, h.entries[i]);
      var qs :| DescribedBy(c, qs, h.entries[i]);
      assert DescribedBy(c, qs, r);
    }
  }

  // ----- inserting

  lemma UpdatedIsRestampedIff(rows: seq<Row>, r: Row, e: NewEntry)
    requires IdsAscend(rows) && r in rows
    ensures Updated(rows, r.id, e) == Restamped(rows, r.id, e.createdAt)
            <==> Refreshed(r, e) == r.(lastUsedAt := e.createdAt)
  {
    var k :| 0 <= k < |rows| && rows[k] == r;
    assert Updated(rows, r.id, e)[k] == Refreshed(r, e)
        && Restamped(rows, r.id, e.createdAt)[k] == r.(lastUsedAt := e.createdAt);
    forall i | 0 <= i < |rows| && i != k
      ensures Updated(rows, r.id, e)[i] == rows[i] == Restamped(rows, r.id, e.createdAt)[i]
    {
      assert rows[i].id != r.id;
    }
  }

  /** With no collisions, a row describes the payloads stored for it. */
  lemma CollisionFreeAgrees(c: Setting, h: History, r: Row)
    requires CollisionFree(c) && Faithful(c, h) && r in h.entries
    ensures Agrees(c, PayloadsOf(h.payloads, r.id), r)
    ensures forall ps :: (c.known)(ps) && HashOf(c.env, ps) == r.hash ==> ps == PayloadsOf(h.payloads, r.id)
  {
    assert RowFaithful(c, h.payloads, r);
    var qs :| DescribedBy(c, qs, r);
    assert qs == PayloadsOf(h.payloads, r.id);
  }

  lemma FoundIs(h: History, r: Row)
    requires WellFormed(h) && r in h.entries
    ensures FindByHash(h.entries, r.hash) == Some(r.id)
  {
    var id := FindByHash(h.entries, r.hash).value;
    var k := FoundRow(h, r.hash, id);
    SameHashSameRow(h, r, k);
  }

  /** Storing payloads whose hash is stored is a touch, in which nothing but the time of last use changes
      and nothing is evicted, exactly when the row agrees with these payloads; whatever the stamps, and
      whether or not hashes collide. */
  lemma InsertKnownIsTouch(c: Setting, h: History, ps: seq<Payload>, now: int, r: Row, t: History)
    requires WellFormed(h) && RowsFit(h) && r in h.entries && r.hash == HashOf(c.env, ps)
    requires TrimsTo(Stored(h, EntryFor(c.env, ps, now)), t)
    ensures t == Touched(h, r.id, now) <==> Agrees(c, ps, r)
    ensures InsertedId(h, EntryFor(c.env, ps, now)) == r.id
  {
    var e := EntryFor(c.env, ps, now);
    FoundIs(h, r);
    UpdatedIsRestampedIff(h.entries, r, e);
    if Agrees(c, ps, r) {
      assert Stored(h, e) == Touched(h, r.id, now);
      TouchedIsNotTrimmed(h, r.id, now, t);
    } else if t == Touched(h, r.id, now) {
      TrimOnlyRemoves(Stored(h, e), t);
      RewrittenRowDiffers(h, r, e);
    }
  }

  /** A row that was really rewritten is not among the touched ones. */
  lemma RewrittenRowDiffers(h: History, r: Row, e: NewEntry)
    requires WellFormed(h) && r in h.entries && Refreshed(r, e) != r.(lastUsedAt := e.createdAt)
    ensures exists s :: s in Touched(h, r.id, e.createdAt).entries && s !in Updated(h.entries, r.id, e)
  {
    var k :| 0 <= k < |h.entries| && h.entries[k] == r;
    var s := r.(lastUsedAt := e.createdAt);
    assert Touched(h, r.id, e.createdAt).entries[k] == s;
    forall i | 0 <= i < |h.entries| ensures Updated(h.entries, r.id, e)[i] != s {
      assert i != k ==> h.entries[i].id != r.id;
    }
    assert s in Touched(h, r.id, e.createdAt).entries && s !in Updated(h.entries, r.id, e);
  }

  lemma TouchedIsNotTrimmed(h: History, id: nat, now: int, t: History)
    requires WellFormed(h) && RowsFit(h) && TrimsTo(Touched(h, id, now), t)
    ensures t == Touched(h, id, now)
  {
    var touched := Touched(h, id, now);
    RewriteKeepsWellFormed(h, touched.entries);
    assert Items(touched.entries) == Items(h.entries);
    FittingIsNotTrimmed(touched, t);
  }

  lemma SameHashSameRow(h: History, r: Row, k: nat)
    requires WellFormed(h) && r in h.entries && k < |h.entries| && h.entries[k].hash == r.hash
    ensures h.entries[k] == r
  {
    var i :| 0 <= i < |h.entries| && h.entries[i] == r;
  }

  lemma OtherRowsStayFaithful(c: Setting, h: History, id: nat, added: seq<Payload>, r: Row)
    requires RowFaithful(c, h.payloads, r) && r.id != id
    ensures RowFaithful(c, h.payloads + PayloadRows(id, h.lastPayloadId, added), r)
  {
    PayloadsOfAppend(h.payloads, PayloadRows(id, h.lastPayloadId, added), r.id);
    PayloadsOfNone(PayloadRows(id, h.lastPayloadId, added), r.id);
    assert PayloadsOf(h.payloads, r.id) + [] == PayloadsOf(h.payloads, r.id);
  }

  lemma NewRowIsFaithful(c: Setting, h: History, ps: seq<Payload>, now: int, r: Row)
    requires WellFormed(h) && Capturable(ps) && (c.known)(ps)
    requires FindByHash(h.entries, HashOf(c.env, ps)).None?
    requires var e := EntryFor(c.env, ps, now);
             r == Row(h.lastId + 1, e.hash, e.kind, e.labelText, e.preview, e.size, now, now)
    ensures RowFaithful(c, Stored(h, EntryFor(c.env, ps, now)).payloads, r)
  {
    StoredPayloads(h, EntryFor(c.env, ps, now));
    assert DescribedBy(c, ps, r);
  }

  lemma StoredNewIsFaithful(c: Setting, h: History, ps: seq<Payload>, now: int)
    requires WellFormed(h) && Faithful(c, h) && Capturable(ps) && (c.known)(ps)
    requires FindByHash(h.entries, HashOf(c.env, ps)).None?
    ensures Faithful(c, Stored(h, EntryFor(c.env, ps, now)))
  {
    var e := EntryFor(c.env, ps, now);
    var s := Stored(h, e);
    var added := Row(h.lastId + 1, e.hash, e.kind, e.labelText, e.preview, e.size, now, now);
    NewRowIsFaithful(c, h, ps, now, added);
    assert s.entries == h.entries + [added];
    forall r | r in s.entries ensures RowFaithful(c, s.payloads, r) {
      if r != added {
        assert r in h.entries && RowFaithful(c, h.payloads, r);
        OtherRowsStayFaithful(c, h, h.lastId + 1, e.payloads, r);
      }
    }
  }

  /** The rewritten row keeps its hash and its payloads, and describes the capture just made. */
  lemma StoredKnownIsFaithful(c: Setting, h: History, ps: seq<Payload>, now: int, id: nat)
    requires WellFormed(h) && Faithful(c, h) && Capturable(ps) && (c.known)(ps)
    requires FindByHash(h.entries, HashOf(c.env, ps)) == Some(id)
    ensures Faithful(c, Stored(h, EntryFor(c.env, ps, now)))
  {
    var e := EntryFor(c.env, ps, now);
    var k := FoundRow(h, e.hash, id);
    forall r | r in Updated(h.entries, id, e) ensures RowFaithful(c, h.payloads, r) {
      var i :| 0 <= i < |h.entries| && Updated(h.entries, id, e)[i] == r;
      assert h.entries[i] in h.entries && RowFaithful(c, h.payloads, h.entries[i]);
      if h.entries[i].id == id {
        assert i == k;
        assert DescribedBy(c, ps, r);
      }
    }
  }

  lemma InsertKeepsInv(c: Setting, h: History, ps: seq<Payload>, now: int, t: History)
    requires StoreInv(c, h) && Capturable(ps) && (c.known)(ps)
    requires TrimsTo(Stored(h, EntryFor(c.env, ps, now)), t)
    ensures StoreInv(c, t)
  {
    var e := EntryFor(c.env, ps, now);
    StoredKeepsWellFormed(h, e);
    match FindByHash(h.entries, e.hash) {
      case None => StoredNewIsFaithful(c, h, ps, now);
      case Some(id) => StoredKnownIsFaithful(c, h, ps, now, id);
    }
    TrimKeepsInv(c, Stored(h, e), t);
  }
}
