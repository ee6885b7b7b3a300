/** The one-slot, expiring memory of the entry that was last restored. */
module Suppress {
  import opened Prelude

  /** Five seconds, in nanoseconds. */
  const SUPPRESS_TTL: int := 5_000_000_000

  datatype PendingHash = PendingHash(hash: Bytes, expiresAt: int)

  type Cell = Option<PendingHash>

  datatype Call = Arm(hash: Bytes, time: int) | Query(hash: Bytes, time: int)

  function CellAfter(cell: Cell, call: Call): Cell {
    match call
    case Arm(hash, now) => Some(PendingHash(hash, now + SUPPRESS_TTL))
    case Query(hash, now) =>
      if cell.Some? && (now > cell.value.expiresAt || cell.value.hash == hash) then None else cell
  }

  predicate Answer(cell: Cell, hash: Bytes, now: int) {
    cell.Some? && now <= cell.value.expiresAt && cell.value.hash == hash
  }

  class SuppressState {
    var pending: Cell

    constructor ()
      ensures pending == None
    {
      pending := None;
    }

    method ArmAt(hash: Bytes, now: int)
      modifies this
      ensures pending == CellAfter(old(pending), Arm(hash, now))
    {
      pending := Some(PendingHash(hash, now + SUPPRESS_TTL));
    }

    method ShouldSuppressAt(hash: Bytes, now: int) returns (suppress: bool)
      modifies this
      ensures suppress == Answer(old(pending), hash, now)
      ensures pending == CellAfter(old(pending), Query(hash, now))
    {
      match pending {
        case Some(slot) =>
          if now > slot.expiresAt {
            pending := None;
            return false;
          }
          if slot.hash == hash {
            pending := None;
            return true;
          }
          return false;
        case None =>
          return false;
      }
    }
  }

  // ----- whole histories of calls, oldest first

  function Replay(calls: seq<Call>): Cell {
    if calls == [] then None else CellAfter(Replay(calls[..|calls| - 1]), calls[|calls| - 1])
  }

  /** The answer given to the call at `k`, which is a query. */
  predicate AnsweredTrue(calls: seq<Call>, k: nat)
    requires k < |calls|
  {
    calls[k].Query? && Answer(Replay(calls[..k]), calls[k].hash, calls[k].time)
  }

  /** `j` is the last arm before `k`. */
  predicate LatestArm(calls: seq<Call>, j: nat, k: nat)
    requires k <= |calls|
  {
    j < k && calls[j].Arm? && forall i: nat :: j < i < k ==> calls[i].Query?
  }

  /** A query that empties the slot armed at `j`: it matches, or comes too late. */
  predicate Empties(calls: seq<Call>, j: nat, q: nat)
    requires j < |calls| && q < |calls|
  {
    calls[q].Query? && (calls[q].hash == calls[j].hash || calls[q].time > calls[j].time + SUPPRESS_TTL)
  }

  lemma {:induction false} SlotHolds(calls: seq<Call>, j: nat, k: nat)
    requires k <= |calls| && LatestArm(calls, j, k)
    ensures Replay(calls[..k]) ==
            if exists q: nat :: j < q < k && Empties(calls, j, q) then None
            else Some(PendingHash(calls[j].hash, calls[j].time + SUPPRESS_TTL))
    decreases k
  {
    assert calls[..k][..k - 1] == calls[..k - 1];
    if j < k - 1 {
      SlotHolds(calls, j, k - 1);
      if Empties(calls, j, k - 1) {
      } else if q: nat :| j < q < k && Empties(calls, j, q) {
        assert q < k - 1;
      }
    }
  }

  lemma {:induction false} SlotEmptyWithoutArm(calls: seq<Call>, k: nat)
    requires k <= |calls| && forall i :: 0 <= i < k ==> calls[i].Query?
    ensures Replay(calls[..k]) == None
    decreases k
  {
    if k > 0 {
      SlotEmptyWithoutArm(calls, k - 1);
      assert calls[..k][..k - 1] == calls[..k - 1];
    }
  }

  lemma {:induction false} FindLatestArm(calls: seq<Call>, k: nat) returns (found: bool, j: nat)
    requires k <= |calls|
    ensures found ==> LatestArm(calls, j, k)
    ensures !found ==> forall i :: 0 <= i < k ==> calls[i].Query?
    decreases k
  {
    if k == 0 {
      found, j := false, 0;
    } else if calls[k - 1].Arm? {
      found, j := true, k - 1;
    } else {
      found, j := FindLatestArm(calls, k - 1);
    }
  }

  /** Whatever the times: a query is answered true exactly when the latest arm has its hash, is no
      older than the TTL, and no query since has emptied the slot. */
  lemma AnswerIff(calls: seq<Call>, k: nat)
    requires k < |calls| && calls[k].Query?
    ensures AnsweredTrue(calls, k) <==>
            exists j: nat :: LatestArm(calls, j, k) && calls[j].hash == calls[k].hash
                        && calls[k].time <= calls[j].time + SUPPRESS_TTL
                        && forall q: nat :: j < q < k ==> !Empties(calls, j, q)
  {
    var found, j := FindLatestArm(calls, k);
    if found {
      SlotHolds(calls, j, k);
      forall i: nat | LatestArm(calls, i, k) ensures i == j {
      }
    } else {
      SlotEmptyWithoutArm(calls, k);
    }
  }

  predicate TimesAscend(calls: seq<Call>) {
    forall i, j :: 0 <= i < j < |calls| ==> calls[i].time <= calls[j].time
  }

  /** On a monotonic clock the slot is only emptied early by being consumed. */
  lemma AnswerIffNotConsumed(calls: seq<Call>, k: nat)
    requires k < |calls| && calls[k].Query? && TimesAscend(calls)
    ensures AnsweredTrue(calls, k) <==>
            exists j: nat :: LatestArm(calls, j, k) && calls[j].hash == calls[k].hash
                        && calls[k].time <= calls[j].time + SUPPRESS_TTL
                        && forall q: nat :: j < q < k ==> !AnsweredTrue(calls, q)
  {
    AnswerIff(calls, k);
    forall j: nat, q: nat | LatestArm(calls, j, k) && j < q < k && calls[k].time <= calls[j].time + SUPPRESS_TTL
        && calls[j].hash == calls[k].hash && (Empties(calls, j, q) || AnsweredTrue(calls, q))
      ensures exists p: nat :: j < p < k && AnsweredTrue(calls, p)
      ensures exists p: nat :: j < p < k && Empties(calls, j, p)
    {
      ConsumedBetween(calls, j, q);
    }
  }

  lemma {:induction false} ConsumedBetween(calls: seq<Call>, j: nat, q: nat)
    requires j < q < |calls| && LatestArm(calls, j, q) && TimesAscend(calls) && calls[q].Query?
    requires calls[q].time <= calls[j].time + SUPPRESS_TTL
    requires Empties(calls, j, q) || AnsweredTrue(calls, q)
    ensures exists p: nat :: j < p <= q && AnsweredTrue(calls, p)
    ensures exists p: nat :: j < p <= q && Empties(calls, j, p)
    decreases q
  {
    SlotHolds(calls, j, q);
    if p: nat :| j < p < q && Empties(calls, j, p) {
      assert LatestArm(calls, j, p);
      ConsumedBetween(calls, j, p);
    } else {
      assert Empties(calls, j, q) && AnsweredTrue(calls, q);
    }
  }

  // ----- each arm suppresses at most once

  function Arms(calls: seq<Call>): nat {
    if calls == [] then 0 else Arms(calls[..|calls| - 1]) + (if calls[|calls| - 1].Arm? then 1 else 0)
  }

  function Trues(calls: seq<Call>): nat {
    if calls == [] then 0
    else Trues(calls[..|calls| - 1]) + (if AnsweredTrue(calls, |calls| - 1) then 1 else 0)
  }

  /** A full slot is an arm not yet spent, so suppressions never outnumber restores. */
  lemma {:induction false} SuppressionsBounded(calls: seq<Call>)
    ensures Trues(calls) + (if Replay(calls).Some? then 1 else 0) <= Arms(calls)
  {
    if calls != [] {
      SuppressionsBounded(calls[..|calls| - 1]);
    }
  }

  /** One arm answers at most one query. */
  lemma EachArmSuppressesOnce(calls: seq<Call>, j: nat, k: nat, l: nat)
    requires k < |calls| && l < |calls| && AnsweredTrue(calls, k) && AnsweredTrue(calls, l)
    requires LatestArm(calls, j, k) && LatestArm(calls, j, l)
    ensures k == l
  {
    if k < l {
      OnceEmptied(calls, j, k, l);
    } else if l < k {
      OnceEmptied(calls, j, l, k);
    }
  }

  lemma OnceEmptied(calls: seq<Call>, j: nat, k: nat, l: nat)
    requires k < l < |calls| && LatestArm(calls, j, k) && LatestArm(calls, j, l) && AnsweredTrue(calls, k)
    ensures !AnsweredTrue(calls, l)
  {
    SlotHolds(calls, j, k);
    SlotHolds(calls, j, l);
    assert Empties(calls, j, k);
  }
}
