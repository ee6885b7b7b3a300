/** Runs whose stamps ascend: the statements then leave SQL no choice. */
module Clock {
  import opened Tables
  import opened Ranking
  import opened Trimming
  import opened Refinement
  import opened Unbounded

  /** Every stamp is later than all before it. */
  predicate Clocked(ops: seq<Op>) {
    forall i, j :: 0 <= i < j < |ops| && HasTime(ops[i]) && HasTime(ops[j]) ==> Time(ops[i]) < Time(ops[j])
  }

  predicate HasTime(op: Op) { op.Insert? || op.Touch? }

  function Time(op: Op): int
    requires HasTime(op)
  {
    match op
    case Insert(e) => e.createdAt
    case Touch(_, now) => now
  }

  lemma TouchMissing(h: History, id: nat, now: int)
    requires id !in Ids(h.entries)
    ensures Touched(h, id, now) == h
  {
    forall i | 0 <= i < |h.entries| ensures h.entries[i].id != id {
      assert h.entries[i] in h.entries;
    }
    assert Restamped(h.entries, id, now) == h.entries;
  }

  /** Every stamp in the table was given by one of the statements. */
  ghost predicate StampedBy(h: History, ops: seq<Op>) {
    forall r :: r in h.entries ==> exists i :: 0 <= i < |ops| && HasTime(ops[i]) && r.lastUsedAt == Time(ops[i])
  }

  lemma StampedByMore(h: History, front: seq<Op>, op: Op)
    requires StampedBy(h, front)
    ensures StampedBy(Apply(h, op), front + [op])
  {
    var ops := front + [op];
    StampsComeFromOps(h, op);
    forall r | r in Apply(h, op).entries
      ensures exists i :: 0 <= i < |ops| && HasTime(ops[i]) && r.lastUsedAt == Time(ops[i])
    {
      assert StampFrom(h, op, r);
      if s :| s in h.entries && s.lastUsedAt == r.lastUsedAt {
        var i :| 0 <= i < |front| && HasTime(front[i]) && s.lastUsedAt == Time(front[i]);
        assert ops[i] == front[i];
      } else {
        assert ops[|front|] == op;
      }
    }
  }

  lemma ClockAhead(h: History, front: seq<Op>, op: Op)
    requires StampedBy(h, front) && Clocked(front + [op]) && HasTime(op)
    ensures StampsBelow(h.entries, Time(op))
  {
    var ops := front + [op];
    forall r | r in h.entries ensures r.lastUsedAt < Time(op) {
      var i :| 0 <= i < |front| && HasTime(front[i]) && r.lastUsedAt == Time(front[i]);
      assert ops[i] == front[i] && ops[|front|] == op;
    }
  }

  /** Where a stamp in the table may come from. */
  ghost predicate StampFrom(h: History, op: Op, r: Row) {
    (exists s :: s in h.entries && s.lastUsedAt == r.lastUsedAt) || (HasTime(op) && r.lastUsedAt == Time(op))
  }

  lemma RetainedStamps(h: History, op: Op, t: History, ids: set<nat>)
    requires forall r :: r in t.entries ==> StampFrom(h, op, r)
    ensures forall r :: r in Retain(t, ids).entries ==> StampFrom(h, op, r)
  {
    WhereMembers(t.entries, ids);
  }

  lemma StoredStamps(h: History, e: NewEntry)
    ensures forall r :: r in Stored(h, e).entries ==> StampFrom(h, Insert(e), r)
  {
    forall r | r in Stored(h, e).entries ensures StampFrom(h, Insert(e), r) {
      var i :| 0 <= i < |Stored(h, e).entries| && Stored(h, e).entries[i] == r;
      if i < |h.entries| {
        assert h.entries[i] in h.entries;
      }
    }
  }

  lemma TouchedStamps(h: History, id: nat, now: int)
    ensures forall r :: r in Touched(h, id, now).entries ==> StampFrom(h, Touch(id, now), r)
  {
    forall r | r in Touched(h, id, now).entries ensures StampFrom(h, Touch(id, now), r) {
      var i :| 0 <= i < |h.entries| && Restamped(h.entries, id, now)[i] == r;
      assert h.entries[i] in h.entries;
    }
  }

  lemma StampsComeFromOps(h: History, op: Op)
    ensures forall r :: r in Apply(h, op).entries ==> StampFrom(h, op, r)
  {
    match op
    case Insert(e) =>
      var t := Stored(h, e);
      StoredStamps(h, e);
      RetainedStamps(h, op, t, Ids(Ranked(t.entries)[..KeptCount(t.entries, BoundsOf(t))]));
    case Touch(id, now) => TouchedStamps(h, id, now);
    case Delete(id) => RetainedStamps(h, op, h, Ids(h.entries) - {id});
    case Clear => RetainedStamps(h, op, h, {});
    case SetLimits(n, m) =>
      RetainedStamps(h, op, h.(maxEntries := n, maxHistorySize := m),
                     Ids(Ranked(h.entries)[..KeptCount(h.entries, EffectiveBounds(n, m))]));
  }

  lemma TouchedDistinct(h: History, id: nat, now: int)
    requires WellFormed(h) && DistinctStamps(h.entries) && StampsBelow(h.entries, now)
    ensures DistinctStamps(Touched(h, id, now).entries)
  {
    var k := ItemOfId(h, id);
    if id in Ids(h.entries) {
      DistinctWithFront(h.entries, Touched(h, id, now).entries, h.entries[k].(lastUsedAt := now));
    } else {
      TouchMissing(h, id, now);
    }
  }

  /** A later stamp leaves the statement no choice. */
  lemma StepIsApply(h: History, op: Op, k: History)
    requires WellFormed(h) && DistinctStamps(h.entries) && (HasTime(op) ==> StampsBelow(h.entries, Time(op)))
    requires Yields(h, op, k)
    ensures k == Apply(h, op) && DistinctStamps(k.entries)
  {
    match op
    case Insert(e) =>
      StoredKeepsWellFormed(h, e);
      StoredDistinct(h, e);
      TrimFacts(Stored(h, e), k);
      RankedTrimmed(Stored(h, e));
    case Touch(id, now) => TouchedDistinct(h, id, now);
    case Delete(id) => WhereKeepsDistinct(h.entries, Ids(h.entries) - {id});
    case Clear => WhereKeepsDistinct(h.entries, {});
    case SetLimits(n, m) =>
      TrimFacts(h.(maxEntries := n, maxHistorySize := m), k);
      RankedTrimmed(h.(maxEntries := n, maxHistorySize := m));
  }

  lemma ClockedFront(ops: seq<Op>)
    requires ops != [] && Clocked(ops)
    ensures ops == ops[..|ops| - 1] + [ops[|ops| - 1]] && Clocked(ops[..|ops| - 1])
  {
    var front := ops[..|ops| - 1];
    assert forall i :: 0 <= i < |front| ==> front[i] == ops[i];
  }

  /** With ascending stamps a run of any statements has one outcome. */
  lemma {:induction false} ClockedRunIsReplay(n: U64, m: U64, ops: seq<Op>, h: History)
    requires Clocked(ops) && RunsTo(Empty(n, m), ops, h)
    ensures h == Replay(Empty(n, m), ops)
    ensures WellFormed(h) && DistinctStamps(h.entries) && StampedBy(h, ops)
    decreases |ops|
  {
    if ops != [] {
      var front, op := ops[..|ops| - 1], ops[|ops| - 1];
      var g :| RunsTo(Empty(n, m), front, g) && Yields(g, op, h);
      ClockedFront(ops);
      ClockedRunIsReplay(n, m, front, g);
      if HasTime(op) {
        ClockAhead(g, front, op);
      }
      StepIsApply(g, op, h);
      StampedByMore(g, front, op);
      ApplyKeepsWellFormed(g, op);
    }
  }
}
