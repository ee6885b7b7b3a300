/** The daemon's own code, step by step of the protocol: what the restore request and the watcher do to the
    shared store and slot are runs of the model, and so a restored entry's echo is harmless end to end. */
module Daemon {
  import opened Prelude
  import opened Tables
  import opened Watcher
  import opened Echo
  import opened Protocol
  import opened ProtocolTheorems
  import opened DrainReader
  import opened Server
  import opened StoreInvariant
  import Database
  import Offers
  import Ranking
  import Refinement
  import Suppress

  /** The shared objects hold what the world says they hold. */
  ghost predicate Holds(w: World, suppress: Suppress.SuppressState, db: Database.Database)
    reads suppress, db
  {
    db.Contents() == w.store && suppress.pending == w.cell
  }

  ghost predicate Path(c: Setting, w: World, steps: seq<Step>, v: World) {
    Runs(c, w, steps) && v == After(c, w, steps)
  }

  lemma PathGrows(c: Setting, w: World, steps: seq<Step>, v: World, s: Step)
    requires Path(c, w, steps, v) && Enabled(c, v, s)
    ensures Path(c, w, steps + [s], Next(c, v, s))
  {
    assert (steps + [s])[..|steps|] == steps;
  }

  // ----- the restore request

  /** The request is a lookup, an arm and a spawn, in this order. */
  method Restore(ghost c: Setting, ghost w: World, db: Database.Database, suppress: Suppress.SuppressState,
                 id: nat, now: int, instant: int)
      returns (response: Response, ghost steps: seq<Step>, ghost v: World)
    requires db.Valid() && Holds(w, suppress, db) && w.instant <= instant
    modifies db, suppress
    ensures db.Valid() && Path(c, w, steps, v) && Holds(v, suppress, db)
    ensures response.Done? <==> id in Ids(w.store.entries)
    ensures steps == if response.Done? then [Lookup(id, now), ArmSlot(w.tickets, instant), Spawn(w.tickets)] else []
    ensures response.Done? ==>
              w.tickets in v.offers && v.offers[w.tickets].id == id
              && v.offers[w.tickets].payloads == PayloadsOf(w.store.payloads, id)
  {
    var offered;
    response, offered := DispatchRestore(db, suppress, id, now, instant);
    steps, v := [], w;
    if response.Done? {
      v := RestoreSteps(c, w, id, now, instant);
      steps := [Lookup(id, now), ArmSlot(w.tickets, instant), Spawn(w.tickets)];
      ghost var r := RowOf(w.store.entries, id).value;
      forall s | s in w.store.entries && s.id == id ensures s == r {
        Ranking.IdIsKey(w.store.entries, s, r);
      }
    }
  }

  lemma RestoreSteps(c: Setting, w: World, id: nat, now: int, instant: int) returns (v: World)
    requires id in Ids(w.store.entries) && w.instant <= instant
    ensures RowOf(w.store.entries, id).Some?
    ensures Path(c, w, [Lookup(id, now), ArmSlot(w.tickets, instant), Spawn(w.tickets)], v)
    ensures v.store == Touched(w.store, id, now)
    ensures v.cell == Suppress.CellAfter(w.cell, Suppress.Arm(RowOf(w.store.entries, id).value.hash, instant))
    ensures w.tickets in v.offers && v.offers[w.tickets].id == id
            && v.offers[w.tickets].payloads == PayloadsOf(w.store.payloads, id)
  {
    var t := w.tickets;
    var looked := Next(c, w, Lookup(id, now));
    PathGrows(c, w, [], w, Lookup(id, now));
    PathGrows(c, w, [Lookup(id, now)], looked, ArmSlot(t, instant));
    var armed := Next(c, looked, ArmSlot(t, instant));
    PathGrows(c, w, [Lookup(id, now), ArmSlot(t, instant)], armed, Spawn(t));
    v := Next(c, armed, Spawn(t));
    assert [] + [Lookup(id, now)] == [Lookup(id, now)];
    assert [Lookup(id, now)] + [ArmSlot(t, instant)] == [Lookup(id, now), ArmSlot(t, instant)];
    assert [Lookup(id, now), ArmSlot(t, instant)] + [Spawn(t)] == [Lookup(id, now), ArmSlot(t, instant), Spawn(t)];
  }

  // ----- the watcher

  /** From payloads in hand: ask, and keep unless told not to. */
  function Decision(suppressed: bool, instant: int, now: int, trimmed: History): seq<Step> {
    if suppressed then [Ask(instant)] else [Ask(instant), Keep(now, trimmed)]
  }

  lemma DecisionSteps(c: Setting, w: World, first: Step, instant: int, now: int, trimmed: History) returns (v: World)
    requires Enabled(c, w, first) && w.instant <= instant
    requires var u := Next(c, w, first);
             u.watcher.Hashed? && u.store == w.store && u.cell == w.cell && u.instant == w.instant
    requires var u := Next(c, w, first);
             !Suppress.Answer(w.cell, u.watcher.hash, instant) ==>
                 TrimsTo(Stored(w.store, EntryFor(c.env, u.watcher.payloads, now)), trimmed)
    ensures var u := Next(c, w, first);
            var suppressed := Suppress.Answer(w.cell, u.watcher.hash, instant);
            && Path(c, w, [first] + Decision(suppressed, instant, now, trimmed), v) && v.watcher.Idle?
            && v.cell == Suppress.CellAfter(w.cell, Suppress.Query(u.watcher.hash, instant))
            && v.store == if suppressed then w.store else trimmed
  {
    var u := Next(c, w, first);
    PathGrows(c, w, [], w, first);
    assert [] + [first] == [first];
    PathGrows(c, w, [first], u, Ask(instant));
    v := Next(c, u, Ask(instant));
    if v.watcher.Unsuppressed? {
      PathGrows(c, w, [first] + [Ask(instant)], v, Keep(now, trimmed));
      v := Next(c, v, Keep(now, trimmed));
      assert [first] + [Ask(instant)] + [Keep(now, trimmed)] == [first] + Decision(false, instant, now, trimmed);
    }
  }

  /** Reading our own offer, announced by the compositor and served by the restoring thread: the watcher
      sees the echo, asks, and keeps it unless it is suppressed. */
  method CaptureEcho(env: Env, ghost c: Setting, ghost w: World, ghost ticket: nat, ghost order: seq<nat>,
                     ghost seen: seq<Offers.Step>, pending: Offers.PendingOffer, kernel: Kernel,
                     suppress: Suppress.SuppressState, db: Database.Database, instant: int, now: int)
      returns (outcome: Outcome, ghost steps: seq<Step>, ghost v: World)
    requires c.env == env && db.Valid() && Holds(w, suppress, db) && w.watcher.Idle? && w.instant <= instant
    requires ticket in w.offers && Capturable(w.offers[ticket].payloads) && Covers(order, |pending.mimeTypes|)
    requires Announces(seen, pending.id, w.offers[ticket].payloads)
    requires Offers.Run(seen + [Offers.Dispatch(Offers.Selection(Some(pending.id)))]).ready == Some(pending)
    requires kernel.Valid() && kernel.trace == [] && kernel.limit == MAX_PAYLOAD_BYTES && !kernel.faulty
    requires |kernel.capacities| == |pending.mimeTypes|
    requires kernel.source == EchoScript(w.offers[ticket].payloads, pending.mimeTypes, order)
    modifies kernel, suppress, db
    ensures db.Valid() && Path(c, w, steps, v) && Holds(v, suppress, db) && v.watcher.Idle?
    ensures steps == [SeeEcho(ticket, pending.mimeTypes, order)]
              + Decision(outcome.Suppressed?, instant, now, db.Contents())
    ensures var e := EntryFor(env, w.offers[ticket].payloads, now);
            if outcome.Suppressed? then db.Contents() == w.store
            else outcome == Kept(InsertedId(w.store, e)) && TrimsTo(Stored(w.store, e), db.Contents())
  {
    ghost var ps := w.offers[ticket].payloads;
    ghost var mimes := EchoIsReady(seen, pending.id, ps);
    EchoIsCaptured(ps, mimes, order);
    outcome := ProcessReady(env, kernel, pending.mimeTypes, suppress, db, instant, now);
    v := DecisionSteps(c, w, SeeEcho(ticket, pending.mimeTypes, order), instant, now, db.Contents());
    steps := [SeeEcho(ticket, pending.mimeTypes, order)] + Decision(outcome.Suppressed?, instant, now, db.Contents());
  }

  /** Reading anyone's offer, with whatever faults: if something is captured the watcher sees it, asks, and
      keeps it unless it is suppressed; otherwise nothing happens. */
  method CaptureOther(env: Env, ghost c: Setting, ghost w: World, mimes: seq<Bytes>, kernel: Kernel,
                      suppress: Suppress.SuppressState, db: Database.Database, instant: int, now: int)
      returns (outcome: Outcome, ghost steps: seq<Step>, ghost v: World)
    requires c.env == env && db.Valid() && Holds(w, suppress, db) && w.watcher.Idle? && w.instant <= instant
    requires forall m :: m in mimes ==> !Offers.ShouldSkip(m) && !Offers.IsHint(m)
    requires kernel.Valid() && kernel.trace == [] && kernel.limit == MAX_PAYLOAD_BYTES && |mimes| == |kernel.capacities|
    modifies kernel, suppress, db
    ensures db.Valid() && kernel.Valid() && |kernel.Now().slots| == |mimes|
    ensures match Received(kernel, mimes)
            case None => outcome == NothingCaptured && Holds(w, suppress, db)
            case Some(ps) =>
              (c.known)(ps) ==>
                && Path(c, w, steps, v) && Holds(v, suppress, db) && v.watcher.Idle?
                && steps == [SeeOther(ps)] + Decision(outcome.Suppressed?, instant, now, db.Contents())
  {
    outcome := ProcessReady(env, kernel, mimes, suppress, db, instant, now);
    ReceivedIsCapturable(kernel, mimes);
    steps, v := [], w;
    ghost var received := Received(kernel, mimes);
    if received.Some? && (c.known)(received.value) {
      v := DecisionSteps(c, w, SeeOther(received.value), instant, now, db.Contents());
      steps := [SeeOther(received.value)] + Decision(outcome.Suppressed?, instant, now, db.Contents());
    }
  }

  // ----- end to end

  /** Whatever restores, captures, deletions and reloads came before, in any interleaving and with any
      wall-clock stamps, when the watcher reads the offer of a restored entry that is still stored: the
      tables stay as they are if the echo is suppressed; if not, that entry is touched and nothing else
      happens exactly when its row agrees with its payloads, as it does where no hashes collide.  In any
      case no entry's hash, creation time or payloads change. */
  method EchoLeavesHistory(env: Env, ghost c: Setting, ghost w: World, ghost ticket: nat, ghost order: seq<nat>,
                           ghost seen: seq<Offers.Step>, pending: Offers.PendingOffer, kernel: Kernel,
                           suppress: Suppress.SuppressState, db: Database.Database, instant: int, now: int,
                           ghost n: U64, ghost m: U64, ghost start: int, ghost before: seq<Step>)
      returns (outcome: Outcome)
    requires Path(c, Start(n, m, start), before, w)
    requires c.env == env && db.Valid() && Holds(w, suppress, db) && w.watcher.Idle? && w.instant <= instant
    requires ticket in w.offers && Covers(order, |pending.mimeTypes|)
    requires Announces(seen, pending.id, w.offers[ticket].payloads)
    requires Offers.Run(seen + [Offers.Dispatch(Offers.Selection(Some(pending.id)))]).ready == Some(pending)
    requires kernel.Valid() && kernel.trace == [] && kernel.limit == MAX_PAYLOAD_BYTES && !kernel.faulty
    requires |kernel.capacities| == |pending.mimeTypes|
    requires kernel.source == EchoScript(w.offers[ticket].payloads, pending.mimeTypes, order)
    modifies kernel, suppress, db
    ensures db.Valid()
    ensures forall r :: r in old(db.entries) && r.id == w.offers[ticket].id ==>
              if outcome.Suppressed? then db.Contents() == old(db.Contents())
              else
                && outcome == Kept(r.id)
                && (db.Contents() == Touched(old(db.Contents()), r.id, now)
                    <==> Agrees(c, w.offers[ticket].payloads, r))
                && (CollisionFree(c) ==> Agrees(c, w.offers[ticket].payloads, r))
    ensures Refinement.Extends(old(db.Contents()), db.Contents())
  {
    OfferedIsStored(c, w, ticket, n, m, start, before);
    ghost var ps := w.offers[ticket].payloads;
    ghost var steps, v;
    outcome, steps, v := CaptureEcho(env, c, w, ticket, order, seen, pending, kernel, suppress, db, instant, now);
    if outcome.Suppressed? {
      Refinement.ExtendsItself(w.store);
    } else {
      Refinement.StepExtends(w.store, Refinement.Insert(EntryFor(env, ps, now)), db.Contents());
      forall r | r in w.store.entries && r.id == w.offers[ticket].id
        ensures outcome == Kept(r.id) && (db.Contents() == Touched(w.store, r.id, now) <==> Agrees(c, ps, r))
        ensures CollisionFree(c) ==> Agrees(c, ps, r)
      {
        InsertKnownIsTouch(c, w.store, ps, now, r, db.Contents());
        if CollisionFree(c) {
          CollisionFreeAgrees(c, w.store, r);
        }
      }
    }
  }

  lemma OfferedIsStored(c: Setting, w: World, ticket: nat, n: U64, m: U64, start: int, before: seq<Step>)
    requires Path(c, Start(n, m, start), before, w) && ticket in w.offers
    ensures StoreInv(c, w.store) && Capturable(w.offers[ticket].payloads) && (c.known)(w.offers[ticket].payloads)
    ensures forall r :: r in w.store.entries && r.id == w.offers[ticket].id ==>
              r.hash == HashOf(c.env, w.offers[ticket].payloads)
  {
    RunKeepsInv(c, n, m, start, before);
    RunKeepsNames(c, n, m, start, before);
    assert OfferOk(c, w, ticket, w.offers[ticket]);
    assert Names(w.store, w.offers[ticket].id, w.offers[ticket].hash, w.offers[ticket].payloads);
  }
}
