/** What holds over every interleaving of restores and captures. */
module ProtocolTheorems {
  import opened Prelude
  import opened Tables
  import opened Watcher
  import opened Echo
  import opened Protocol
  import opened StoreInvariant
  import opened Payloads
  import opened HashInput
  import Ranking
  import Refinement
  import Suppress

  /** Stored payloads on their way back to the clipboard, with their hash. */
  ghost predicate Carries(c: Setting, payloads: seq<Payload>, hash: Bytes) {
    Capturable(payloads) && (c.known)(payloads) && hash == HashOf(c.env, payloads)
  }

  /** The restore `ticket` armed the slot with `hash` at place `j` of the log. */
  predicate ArmedAt(log: seq<LogEntry>, j: nat, ticket: nat, hash: Bytes) {
    j < |log| && log[j].party == ByRestore(ticket) && log[j].call.Arm? && log[j].call.hash == hash
  }

  ghost predicate Armed(log: seq<LogEntry>, ticket: nat, hash: Bytes) {
    exists j: nat :: ArmedAt(log, j, ticket, hash)
  }

  /** What is known of one handler. */
  ghost predicate HandlerOk(c: Setting, w: World, t: nat, h: Handler) {
    && t < w.tickets && t !in w.offers && Carries(c, h.payloads, h.hash)
    && (h.SlotArmed? ==> Armed(w.log, t, h.hash))
  }

  ghost predicate HandlersInv(c: Setting, w: World) {
    forall t :: t in w.handlers ==> HandlerOk(c, w, t, w.handlers[t])
  }

  /** What is known of one offer. */
  ghost predicate OfferOk(c: Setting, w: World, t: nat, o: Restored) {
    t < w.tickets && Carries(c, o.payloads, o.hash) && Armed(w.log, t, o.hash)
  }

  ghost predicate OffersInv(c: Setting, w: World) {
    forall t :: t in w.offers ==> OfferOk(c, w, t, w.offers[t])
  }

  ghost predicate EchoOf(w: World, origin: Option<nat>, payloads: seq<Payload>) {
    origin.Some? ==> origin.value in w.offers && w.offers[origin.value].payloads == payloads
  }

  ghost predicate WatcherInv(c: Setting, w: World) {
    match w.watcher
    case Idle => true
    case Hashed(origin, payloads, hash) => Carries(c, payloads, hash) && EchoOf(w, origin, payloads)
    case Unsuppressed(origin, payloads, hash) => Carries(c, payloads, hash) && EchoOf(w, origin, payloads)
  }

  /** A restore arms once, and an echo asks only after its restore has armed. */
  ghost predicate LogEntryOk(w: World, k: nat)
    requires k < |w.log|
  {
    match w.log[k].party
    case ByRestore(t) =>
      && t < w.tickets && w.log[k].call.Arm?
      && (t in w.handlers ==> w.handlers[t].SlotArmed?)
      && (forall j: nat :: j < |w.log| && w.log[j].party == ByRestore(t) ==> j == k)
    case ByWatcher(origin) =>
      && w.log[k].call.Query?
      && (origin.Some? ==>
            && origin.value in w.offers && w.log[k].call.hash == w.offers[origin.value].hash
            && exists j: nat :: j < k && ArmedAt(w.log, j, origin.value, w.offers[origin.value].hash))
  }

  ghost predicate LogInv(w: World) {
    && (forall k: nat :: k < |w.log| ==> LogEntryOk(w, k))
    && Suppress.TimesAscend(Calls(w.log))
    && (forall k: nat :: k < |w.log| ==> w.log[k].call.time <= w.instant)
    && w.cell == Suppress.Replay(Calls(w.log))
  }

  ghost predicate Inv(c: Setting, w: World) {
    && StoreInv(c, w.store)
    && HandlersInv(c, w) && OffersInv(c, w) && WatcherInv(c, w) && LogInv(w)
  }

  // ----- logging

  lemma CallsAppend(log: seq<LogEntry>, entry: LogEntry)
    ensures Calls(log + [entry]) == Calls(log) + [entry.call]
  {
  }

  lemma ReplayAppend(calls: seq<Suppress.Call>, call: Suppress.Call)
    ensures Suppress.Replay(calls + [call]) == Suppress.CellAfter(Suppress.Replay(calls), call)
  {
    assert (calls + [call])[..|calls|] == calls;
  }

  lemma ArmedStays(log: seq<LogEntry>, entry: LogEntry, ticket: nat, hash: Bytes)
    requires Armed(log, ticket, hash)
    ensures Armed(log + [entry], ticket, hash)
  {
    var j: nat :| ArmedAt(log, j, ticket, hash);
    assert ArmedAt(log + [entry], j, ticket, hash);
  }

  /** The clock and the cell follow one more call. */
  lemma LogGrows(w: World, v: World, entry: LogEntry)
    requires LogInv(w) && v.log == w.log + [entry] && v.cell == Suppress.CellAfter(w.cell, entry.call)
    requires v.instant == entry.call.time && w.instant <= v.instant
    ensures Suppress.TimesAscend(Calls(v.log)) && v.cell == Suppress.Replay(Calls(v.log))
    ensures forall k: nat :: k < |v.log| ==> v.log[k].call.time <= v.instant
  {
    CallsAppend(w.log, entry);
    ReplayAppend(Calls(w.log), entry.call);
    forall k: nat | k < |w.log| ensures v.log[k].call.time <= w.instant {
      assert v.log[k] == w.log[k];
    }
  }

  /** An old log entry stays as it was while others are added. */
  lemma OldEntryOk(w: World, v: World, k: nat)
    requires k < |w.log| && LogEntryOk(w, k) && w.log <= v.log && w.tickets <= v.tickets
    requires forall t :: t in w.offers ==> t in v.offers && v.offers[t] == w.offers[t]
    requires w.log[k].party.ByRestore? ==>
               var t := w.log[k].party.ticket;
               && (t in v.handlers ==> v.handlers[t].SlotArmed?)
               && forall j: nat :: |w.log| <= j < |v.log| ==> v.log[j].party != ByRestore(t)
    ensures LogEntryOk(v, k)
  {
    match w.log[k].party
    case ByRestore(t) =>
      forall j: nat | j < |v.log| && v.log[j].party == ByRestore(t) ensures j == k {
        assert j < |w.log| && w.log[j] == v.log[j];
      }
    case ByWatcher(origin) =>
      if origin.Some? {
        var j: nat :| j < k && ArmedAt(w.log, j, origin.value, w.offers[origin.value].hash);
        assert ArmedAt(v.log, j, origin.value, v.offers[origin.value].hash);
      }
  }

  // ----- each step

  /** Old entries stay in order when the only new handler is one not yet armed. */
  lemma LogSurvives(w: World, v: World)
    requires LogInv(w) && w.log == v.log && w.tickets <= v.tickets && v.cell == w.cell && v.instant == w.instant
    requires forall t :: t in w.offers ==> t in v.offers && v.offers[t] == w.offers[t]
    requires forall t :: t in v.handlers && t < w.tickets ==> t in w.handlers && w.handlers[t] == v.handlers[t]
    ensures LogInv(v)
  {
    forall k: nat | k < |v.log| ensures LogEntryOk(v, k) {
      assert LogEntryOk(w, k);
      OldEntryOk(w, v, k);
    }
  }

  lemma OffersSurvive(c: Setting, w: World, v: World)
    requires OffersInv(c, w) && v.offers == w.offers && v.log == w.log && w.tickets <= v.tickets
    ensures OffersInv(c, v)
  {
    forall t | t in v.offers ensures OfferOk(c, v, t, v.offers[t]) {
      assert OfferOk(c, w, t, w.offers[t]);
    }
  }

  lemma HandlersSurvive(c: Setting, w: World, v: World)
    requires HandlersInv(c, w) && v.handlers == w.handlers
               && v.offers == w.offers && v.log == w.log && v.tickets == w.tickets
    ensures HandlersInv(c, v)
  {
    forall t | t in v.handlers ensures HandlerOk(c, v, t, v.handlers[t]) {
      assert HandlerOk(c, w, t, w.handlers[t]);
    }
  }

  /** A new ticket has been offered to nobody. */
  lemma TicketsBound(c: Setting, w: World)
    requires OffersInv(c, w)
    ensures forall t :: t in w.offers ==> t < w.tickets
  {
    forall t | t in w.offers ensures t < w.tickets {
      assert OfferOk(c, w, t, w.offers[t]);
    }
  }

  lemma OneMoreHandler(c: Setting, w: World, v: World, h: Handler)
    requires HandlersInv(c, w) && OffersInv(c, w) && h.Looked? && Carries(c, h.payloads, h.hash)
    requires v.handlers == w.handlers[w.tickets := h] && v.tickets == w.tickets + 1
    requires v.offers == w.offers && v.log == w.log
    ensures HandlersInv(c, v)
  {
    TicketsBound(c, w);
    forall t | t in v.handlers ensures HandlerOk(c, v, t, v.handlers[t]) {
      if t != w.tickets {
        assert HandlerOk(c, w, t, w.handlers[t]);
      }
    }
  }

  lemma LookupKeepsHandlers(c: Setting, w: World, id: nat, now: int)
    requires HandlersInv(c, w) && OffersInv(c, w) && Faithful(c, w.store)
    requires Enabled(c, w, Lookup(id, now)) && RowOf(w.store.entries, id).Some?
    ensures HandlersInv(c, Next(c, w, Lookup(id, now)))
  {
    var row := RowOf(w.store.entries, id).value;
    var ps := PayloadsOf(w.store.payloads, id);
    FaithfulRowCarries(c, w.store, row);
    OneMoreHandler(c, w, Next(c, w, Lookup(id, now)), Looked(id, row.hash, ps));
  }

  lemma FaithfulRowCarries(c: Setting, h: History, r: Row)
    requires Faithful(c, h) && r in h.entries
    ensures Carries(c, PayloadsOf(h.payloads, r.id), r.hash)
  {
    assert RowFaithful(c, h.payloads, r);
  }

  lemma LookupKeepsRest(c: Setting, w: World, id: nat, now: int)
    requires OffersInv(c, w) && WatcherInv(c, w) && LogInv(w)
    requires Enabled(c, w, Lookup(id, now)) && RowOf(w.store.entries, id).Some?
    ensures var v := Next(c, w, Lookup(id, now)); OffersInv(c, v) && WatcherInv(c, v) && LogInv(v)
  {
    var v := Next(c, w, Lookup(id, now));
    OffersSurvive(c, w, v);
    LogSurvives(w, v);
  }

  lemma LookupKeepsInv(c: Setting, w: World, id: nat, now: int)
    requires Inv(c, w) && Enabled(c, w, Lookup(id, now))
    ensures Inv(c, Next(c, w, Lookup(id, now)))
  {
    if RowOf(w.store.entries, id).Some? {
      TouchKeepsInv(c, w.store, id, now);
      LookupKeepsHandlers(c, w, id, now);
      LookupKeepsRest(c, w, id, now);
    }
  }

  /** Offers stay armed as the log grows. */
  lemma OffersStay(c: Setting, w: World, v: World, entry: LogEntry)
    requires OffersInv(c, w) && v.offers == w.offers && v.log == w.log + [entry] && v.tickets == w.tickets
    ensures OffersInv(c, v)
  {
    forall t | t in v.offers ensures OfferOk(c, v, t, v.offers[t]) {
      assert OfferOk(c, w, t, w.offers[t]);
      ArmedStays(w.log, entry, t, w.offers[t].hash);
    }
  }

  lemma ArmKeepsHandlers(c: Setting, w: World, ticket: nat, time: int)
    requires HandlersInv(c, w) && Enabled(c, w, ArmSlot(ticket, time))
    ensures HandlersInv(c, Next(c, w, ArmSlot(ticket, time)))
  {
    var h, v := w.handlers[ticket], Next(c, w, ArmSlot(ticket, time));
    OneMoreArm(c, w, v, ticket, v.log[|w.log|]);
  }

  lemma OneMoreArm(c: Setting, w: World, v: World, ticket: nat, entry: LogEntry)
    requires HandlersInv(c, w) && ticket in w.handlers && v.log == w.log + [entry]
    requires var h := w.handlers[ticket];
             && v.handlers == w.handlers[ticket := SlotArmed(h.id, h.hash, h.payloads)]
             && entry.party == ByRestore(ticket) && entry.call.Arm? && entry.call.hash == h.hash
    requires v.offers == w.offers && v.tickets == w.tickets
    ensures HandlersInv(c, v)
  {
    forall t | t in v.handlers ensures HandlerOk(c, v, t, v.handlers[t]) {
      assert HandlerOk(c, w, t, w.handlers[t]);
      if t == ticket {
        assert ArmedAt(v.log, |w.log|, ticket, w.handlers[ticket].hash);
      } else {
        HandlerStays(c, w, v, entry, t);
      }
    }
  }

  lemma HandlerStays(c: Setting, w: World, v: World, entry: LogEntry, t: nat)
    requires t in w.handlers && t in v.handlers && v.handlers[t] == w.handlers[t] && HandlerOk(c, w, t, w.handlers[t])
    requires v.log == w.log + [entry] && v.tickets == w.tickets && v.offers == w.offers
    ensures HandlerOk(c, v, t, v.handlers[t])
  {
    if w.handlers[t].SlotArmed? {
      ArmedStays(w.log, entry, t, w.handlers[t].hash);
    }
  }

  lemma HandlerFacts(c: Setting, w: World, ticket: nat)
    requires HandlersInv(c, w) && ticket in w.handlers
    ensures ticket < w.tickets && ticket !in w.offers
  {
    assert HandlerOk(c, w, ticket, w.handlers[ticket]);
  }

  lemma ArmKeepsLog(c: Setting, w: World, ticket: nat, time: int)
    requires LogInv(w) && Enabled(c, w, ArmSlot(ticket, time)) && ticket < w.tickets
    ensures LogInv(Next(c, w, ArmSlot(ticket, time)))
  {
    var v := Next(c, w, ArmSlot(ticket, time));
    LogTakesArm(w, v, ticket, v.log[|w.log|]);
  }

  /** One more arm, by a restore that had not armed. */
  lemma LogTakesArm(w: World, v: World, ticket: nat, entry: LogEntry)
    requires LogInv(w) && ticket in w.handlers && w.handlers[ticket].Looked? && ticket < w.tickets
    requires v.log == w.log + [entry] && entry.party == ByRestore(ticket) && entry.call.Arm?
    requires v.cell == Suppress.CellAfter(w.cell, entry.call) && w.instant <= v.instant == entry.call.time
    requires v.offers == w.offers && v.tickets == w.tickets && v.handlers.Keys == w.handlers.Keys
    requires forall t :: t in v.handlers ==>
               if t == ticket then v.handlers[t].SlotArmed? else v.handlers[t] == w.handlers[t]
    ensures LogInv(v)
  {
    LogGrows(w, v, entry);
    FirstArm(w, v, ticket);
    forall k: nat | k < |v.log| ensures LogEntryOk(v, k) {
      if k < |w.log| {
        assert LogEntryOk(w, k);
        OldEntryOk(w, v, k);
      }
    }
  }

  lemma ArmKeepsInv(c: Setting, w: World, ticket: nat, time: int)
    requires Inv(c, w) && Enabled(c, w, ArmSlot(ticket, time))
    ensures Inv(c, Next(c, w, ArmSlot(ticket, time)))
  {
    ArmKeepsHandlers(c, w, ticket, time);
    OffersStay(c, w, Next(c, w, ArmSlot(ticket, time)), Next(c, w, ArmSlot(ticket, time)).log[|w.log|]);
    HandlerFacts(c, w, ticket);
    ArmKeepsLog(c, w, ticket, time);
  }

  /** The entry just logged is the only one of its restore. */
  lemma FirstArm(w: World, v: World, ticket: nat)
    requires LogInv(w) && ticket in w.handlers && w.handlers[ticket].Looked? && ticket < w.tickets
    requires |v.log| == |w.log| + 1 && w.log <= v.log && v.log[|w.log|].party == ByRestore(ticket)
    ensures forall j: nat :: j < |v.log| && v.log[j].party == ByRestore(ticket) ==> j == |w.log|
  {
    forall j: nat | j < |w.log| ensures v.log[j].party != ByRestore(ticket) {
      assert LogEntryOk(w, j) && v.log[j] == w.log[j];
    }
  }

  lemma SpawnKeepsHandlers(c: Setting, w: World, ticket: nat)
    requires HandlersInv(c, w) && Enabled(c, w, Spawn(ticket))
    ensures HandlersInv(c, Next(c, w, Spawn(ticket)))
  {
    var v := Next(c, w, Spawn(ticket));
    forall t | t in v.handlers ensures HandlerOk(c, v, t, v.handlers[t]) {
      assert t in w.handlers && v.handlers[t] == w.handlers[t] && HandlerOk(c, w, t, w.handlers[t]);
    }
  }

  lemma SpawnKeepsOffers(c: Setting, w: World, ticket: nat)
    requires HandlersInv(c, w) && OffersInv(c, w) && Enabled(c, w, Spawn(ticket))
    ensures OffersInv(c, Next(c, w, Spawn(ticket)))
  {
    var v, h := Next(c, w, Spawn(ticket)), w.handlers[ticket];
    assert HandlerOk(c, w, ticket, h);
    OneMoreOffer(c, w, v, ticket, Restored(h.id, h.hash, h.payloads));
  }

  lemma OneMoreOffer(c: Setting, w: World, v: World, ticket: nat, o: Restored)
    requires OffersInv(c, w) && OfferOk(c, w, ticket, o)
    requires v.offers == w.offers[ticket := o] && v.log == w.log && v.tickets == w.tickets
    ensures OffersInv(c, v)
  {
    forall t | t in v.offers ensures OfferOk(c, v, t, v.offers[t]) {
      if t != ticket {
        assert t in w.offers && v.offers[t] == w.offers[t] && OfferOk(c, w, t, w.offers[t]);
      }
    }
  }

  lemma SpawnKeepsLog(c: Setting, w: World, ticket: nat)
    requires LogInv(w) && Enabled(c, w, Spawn(ticket)) && ticket !in w.offers
    ensures LogInv(Next(c, w, Spawn(ticket)))
  {
    var v := Next(c, w, Spawn(ticket));
    forall t | t in w.offers ensures t in v.offers && v.offers[t] == w.offers[t] {
    }
    forall t | t in v.handlers ensures t in w.handlers && w.handlers[t] == v.handlers[t] {
    }
    LogSurvives(w, v);
  }

  lemma WatcherSurvives(c: Setting, w: World, v: World)
    requires WatcherInv(c, w) && v.watcher == w.watcher
    requires forall t :: t in w.offers ==> t in v.offers && v.offers[t] == w.offers[t]
    ensures WatcherInv(c, v)
  {
  }

  lemma SpawnKeepsWatcher(c: Setting, w: World, ticket: nat)
    requires WatcherInv(c, w) && Enabled(c, w, Spawn(ticket)) && ticket !in w.offers
    ensures WatcherInv(c, Next(c, w, Spawn(ticket)))
  {
    WatcherSurvives(c, w, Next(c, w, Spawn(ticket)));
  }

  lemma SpawnKeepsInv(c: Setting, w: World, ticket: nat)
    requires Inv(c, w) && Enabled(c, w, Spawn(ticket))
    ensures Inv(c, Next(c, w, Spawn(ticket)))
  {
    SpawnKeepsHandlers(c, w, ticket);
    SpawnKeepsOffers(c, w, ticket);
    HandlerFacts(c, w, ticket);
    SpawnKeepsLog(c, w, ticket);
    SpawnKeepsWatcher(c, w, ticket);
  }

  /** Handlers, offers and log are kept by a step that changes none of them. */
  lemma RestoresSurvive(c: Setting, w: World, v: World)
    requires HandlersInv(c, w) && OffersInv(c, w) && LogInv(w)
    requires v == w.(store := v.store, watcher := v.watcher)
    ensures HandlersInv(c, v) && OffersInv(c, v) && LogInv(v)
  {
    HandlersSurvive(c, w, v);
    OffersSurvive(c, w, v);
    LogSurvives(w, v);
  }

  lemma SeeKeepsWatcher(c: Setting, w: World, s: Step)
    requires OffersInv(c, w) && Enabled(c, w, s) && (s.SeeEcho? || s.SeeOther?)
    ensures WatcherInv(c, Next(c, w, s))
  {
    if s.SeeEcho? {
      assert OfferOk(c, w, s.ticket, w.offers[s.ticket]);
      EchoIsCaptured(w.offers[s.ticket].payloads, s.mimes, s.order);
    }
  }

  lemma SeeKeepsInv(c: Setting, w: World, s: Step)
    requires Inv(c, w) && Enabled(c, w, s) && (s.SeeEcho? || s.SeeOther?)
    ensures Inv(c, Next(c, w, s))
  {
    SeeKeepsWatcher(c, w, s);
    RestoresSurvive(c, w, Next(c, w, s));
  }

  lemma AskKeepsRestores(c: Setting, w: World, time: int)
    requires HandlersInv(c, w) && OffersInv(c, w) && Enabled(c, w, Ask(time))
    ensures HandlersInv(c, Next(c, w, Ask(time))) && OffersInv(c, Next(c, w, Ask(time)))
  {
    var v := Next(c, w, Ask(time));
    var entry := v.log[|w.log|];
    OffersStay(c, w, v, entry);
    forall t | t in v.handlers ensures HandlerOk(c, v, t, v.handlers[t]) {
      HandlerStays(c, w, v, entry, t);
    }
  }

  lemma AskKeepsOldEntry(c: Setting, w: World, time: int, k: nat)
    requires LogInv(w) && Enabled(c, w, Ask(time)) && k < |w.log|
    ensures LogEntryOk(Next(c, w, Ask(time)), k)
  {
    assert LogEntryOk(w, k);
    OldEntryOk(w, Next(c, w, Ask(time)), k);
  }

  lemma NewQueryOk(c: Setting, w: World, time: int)
    requires OffersInv(c, w) && WatcherInv(c, w) && Enabled(c, w, Ask(time))
    ensures LogEntryOk(Next(c, w, Ask(time)), |w.log|)
  {
    var v := Next(c, w, Ask(time));
    if w.watcher.origin.Some? {
      var t := w.watcher.origin.value;
      assert OfferOk(c, w, t, w.offers[t]);
      var j: nat :| ArmedAt(w.log, j, t, w.offers[t].hash);
      assert ArmedAt(v.log, j, t, v.offers[t].hash);
    }
  }

  lemma AskKeepsLog(c: Setting, w: World, time: int)
    requires Inv(c, w) && Enabled(c, w, Ask(time))
    ensures LogInv(Next(c, w, Ask(time)))
  {
    var v := Next(c, w, Ask(time));
    LogGrows(w, v, v.log[|w.log|]);
    forall k: nat | k < |v.log| ensures LogEntryOk(v, k) {
      if k < |w.log| {
        AskKeepsOldEntry(c, w, time, k);
      } else {
        NewQueryOk(c, w, time);
      }
    }
  }

  lemma AskKeepsInv(c: Setting, w: World, time: int)
    requires Inv(c, w) && Enabled(c, w, Ask(time))
    ensures Inv(c, Next(c, w, Ask(time)))
  {
    AskKeepsRestores(c, w, time);
    AskKeepsLog(c, w, time);
  }

  lemma StoreStepKeepsStore(c: Setting, w: World, s: Step)
    requires StoreInv(c, w.store) && WatcherInv(c, w)
    requires Enabled(c, w, s) && (s.Keep? || s.Remove? || s.Wipe? || s.Reload?)
    ensures StoreInv(c, Next(c, w, s).store)
  {
    match s {
      case Keep(now, trimmed) => InsertKeepsInv(c, w.store, w.watcher.payloads, now, trimmed);
      case Remove(id) => RetainKeepsInv(c, w.store, Ids(w.store.entries) - {id});
      case Wipe => RetainKeepsInv(c, w.store, {});
      case Reload(n, m, trimmed) => LimitKeepsInv(c, w.store, n, m, trimmed);
    }
  }

  lemma StoreStepKeepsInv(c: Setting, w: World, s: Step)
    requires Inv(c, w) && Enabled(c, w, s) && (s.Keep? || s.Remove? || s.Wipe? || s.Reload?)
    ensures Inv(c, Next(c, w, s))
  {
    StoreStepKeepsStore(c, w, s);
    RestoresSurvive(c, w, Next(c, w, s));
  }

  lemma StepKeepsInv(c: Setting, w: World, s: Step)
    requires Inv(c, w) && Enabled(c, w, s)
    ensures Inv(c, Next(c, w, s))
  {
    match s
    case Lookup(id, now) => LookupKeepsInv(c, w, id, now);
    case ArmSlot(ticket, time) => ArmKeepsInv(c, w, ticket, time);
    case Spawn(ticket) => SpawnKeepsInv(c, w, ticket);
    case SeeEcho(_, _, _) => SeeKeepsInv(c, w, s);
    case SeeOther(_) => SeeKeepsInv(c, w, s);
    case Ask(time) => AskKeepsInv(c, w, time);
    case Keep(_, _) => StoreStepKeepsInv(c, w, s);
    case Remove(_) => StoreStepKeepsInv(c, w, s);
    case Wipe => StoreStepKeepsInv(c, w, s);
    case Reload(_, _, _) => StoreStepKeepsInv(c, w, s);
  }

  lemma {:induction false} RunKeepsInv(c: Setting, n: U64, m: U64, instant: int, steps: seq<Step>)
    requires Runs(c, Start(n, m, instant), steps)
    ensures Inv(c, After(c, Start(n, m, instant), steps))
    decreases |steps|
  {
    if steps != [] {
      var front := steps[..|steps| - 1];
      RunKeepsInv(c, n, m, instant, front);
      StepKeepsInv(c, After(c, Start(n, m, instant), front), steps[|steps| - 1]);
    }
  }

  // ----- the theorems

  /** However server and watcher interleave, whatever the wall clock says to either, and whether or not
      hashes collide: no two entries ever share a hash or an id, the limits hold, each row's hash is that
      of its payloads and each row describes a capture with that hash, and suppressions never outnumber
      restores that armed. */
  lemma HistoryStaysSound(c: Setting, n: U64, m: U64, instant: int, steps: seq<Step>)
    requires Runs(c, Start(n, m, instant), steps)
    ensures var w := After(c, Start(n, m, instant), steps);
            && HashesDiffer(w.store.entries) && IdsAscend(w.store.entries)
            && Faithful(c, w.store) && RowsFit(w.store)
            && Suppress.Trues(Calls(w.log)) <= Suppress.Arms(Calls(w.log))
  {
    RunKeepsInv(c, n, m, instant, steps);
    Suppress.SuppressionsBounded(Calls(After(c, Start(n, m, instant), steps).log));
  }

  /** Where no two lists that occur share a hash, every row describes the payloads stored for it. */
  lemma RowsDescribeTheirPayloads(c: Setting, n: U64, m: U64, instant: int, steps: seq<Step>)
    requires CollisionFree(c) && Runs(c, Start(n, m, instant), steps)
    ensures var h := After(c, Start(n, m, instant), steps).store;
            forall r :: r in h.entries ==> Agrees(c, PayloadsOf(h.payloads, r.id), r)
  {
    var h := After(c, Start(n, m, instant), steps).store;
    RunKeepsInv(c, n, m, instant, steps);
    forall r | r in h.entries ensures Agrees(c, PayloadsOf(h.payloads, r.id), r) {
      CollisionFreeAgrees(c, h, r);
    }
  }

  /** A capture whose hash is still stored leaves the store alone if it is suppressed; if not, it touches
      the entry with that hash and does nothing else exactly when the entry's row agrees with the captured
      payloads.  Where no hashes collide it does, and the payloads are the stored ones.  Every echo carries
      its entry's own payloads and hash (see `EchoCarriesItsEntry`), so this covers every restored entry. */
  lemma EchoIsHarmless(c: Setting, n: U64, m: U64, instant: int, steps: seq<Step>, s: Step, r: Row)
    requires Runs(c, Start(n, m, instant), steps)
    requires var w := After(c, Start(n, m, instant), steps);
             && Enabled(c, w, s) && (s.Ask? || s.Keep?)
             && r in w.store.entries && r.hash == w.watcher.hash
    ensures var w := After(c, Start(n, m, instant), steps);
            var after := Next(c, w, s).store;
            && (s.Ask? ==> after == w.store)
            && (s.Keep? ==> (after == Touched(w.store, r.id, s.now) <==> Agrees(c, w.watcher.payloads, r)))
            && (CollisionFree(c) ==>
                  PayloadsOf(w.store.payloads, r.id) == w.watcher.payloads && Agrees(c, w.watcher.payloads, r))
  {
    var w := After(c, Start(n, m, instant), steps);
    RunKeepsInv(c, n, m, instant, steps);
    if CollisionFree(c) {
      CollisionFreeAgrees(c, w.store, r);
    }
    if s.Keep? {
      InsertKnownIsTouch(c, w.store, w.watcher.payloads, s.now, r, s.trimmed);
    }
  }

  // ----- restored entries keep their identity

  /** If the entry with this id is still stored, it has this hash and these payloads. */
  ghost predicate Names(h: History, id: nat, hash: Bytes, payloads: seq<Payload>) {
    id <= h.lastId && forall r :: r in h.entries && r.id == id ==>
        r.hash == hash && PayloadsOf(h.payloads, id) == payloads
  }

  ghost predicate NamesInv(w: World) {
    && (forall t :: t in w.handlers ==> Names(w.store, w.handlers[t].id, w.handlers[t].hash, w.handlers[t].payloads))
    && (forall t :: t in w.offers ==> Names(w.store, w.offers[t].id, w.offers[t].hash, w.offers[t].payloads))
  }

  lemma NamesPersist(h: History, k: History, id: nat, hash: Bytes, payloads: seq<Payload>)
    requires Names(h, id, hash, payloads) && Refinement.Extends(h, k)
    ensures Names(k, id, hash, payloads)
  {
    forall r | r in k.entries && r.id == id ensures r.hash == hash && PayloadsOf(k.payloads, id) == payloads {
      assert Refinement.SameEntry(h, k, r);
    }
  }

  /** What a step does to the store, as a statement. */
  function StatementOf(c: Setting, w: World, s: Step): Option<Refinement.Op> {
    match s
    case Lookup(id, now) => if RowOf(w.store.entries, id).Some? then Some(Refinement.Touch(id, now)) else None
    case Keep(now, _) =>
      if w.watcher.Unsuppressed? then Some(Refinement.Insert(EntryFor(c.env, w.watcher.payloads, now))) else None
    case Remove(id) => Some(Refinement.Delete(id))
    case Wipe => Some(Refinement.Clear)
    case Reload(n, m, _) => Some(Refinement.SetLimits(n, m))
    case _ => None
  }

  /** To the store, a step is its statement. */
  lemma StepIsStatement(c: Setting, w: World, s: Step)
    requires Enabled(c, w, s)
    ensures match StatementOf(c, w, s)
            case Some(op) => Refinement.Yields(w.store, op, Next(c, w, s).store)
            case None => Next(c, w, s).store == w.store
  {
  }

  lemma StepExtendsStore(c: Setting, w: World, s: Step)
    requires WellFormed(w.store) && Enabled(c, w, s)
    ensures Refinement.Extends(w.store, Next(c, w, s).store)
  {
    StepIsStatement(c, w, s);
    match StatementOf(c, w, s)
    case Some(op) => Refinement.StepExtends(w.store, op, Next(c, w, s).store);
    case None => Refinement.ExtendsItself(w.store);
  }

  lemma LookupNames(w: World, id: nat)
    requires WellFormed(w.store) && RowOf(w.store.entries, id).Some?
    ensures Names(w.store, id, RowOf(w.store.entries, id).value.hash, PayloadsOf(w.store.payloads, id))
  {
    forall r | r in w.store.entries && r.id == id ensures r == RowOf(w.store.entries, id).value {
      Ranking.IdIsKey(w.store.entries, r, RowOf(w.store.entries, id).value);
    }
  }

  lemma StepKeepsHandlerNames(c: Setting, w: World, s: Step, t: nat)
    requires WellFormed(w.store) && NamesInv(w) && Enabled(c, w, s) && t in Next(c, w, s).handlers
    ensures var h := Next(c, w, s).handlers[t]; Names(w.store, h.id, h.hash, h.payloads)
  {
    if s.Lookup? && t == w.tickets && RowOf(w.store.entries, s.id).Some? {
      LookupNames(w, s.id);
    } else {
      var g, h := w.handlers[t], Next(c, w, s).handlers[t];
      assert h.id == g.id && h.hash == g.hash && h.payloads == g.payloads;
    }
  }

  lemma StepKeepsOfferNames(c: Setting, w: World, s: Step, t: nat)
    requires NamesInv(w) && Enabled(c, w, s) && t in Next(c, w, s).offers
    ensures var o := Next(c, w, s).offers[t]; Names(w.store, o.id, o.hash, o.payloads)
  {
    if s.Spawn? && t == s.ticket {
      assert t in w.handlers;
    } else {
      assert Next(c, w, s).offers[t] == w.offers[t];
    }
  }

  lemma StepKeepsNames(c: Setting, w: World, s: Step)
    requires WellFormed(w.store) && NamesInv(w) && Enabled(c, w, s)
    ensures NamesInv(Next(c, w, s))
  {
    var v := Next(c, w, s);
    StepExtendsStore(c, w, s);
    forall t | t in v.handlers ensures Names(v.store, v.handlers[t].id, v.handlers[t].hash, v.handlers[t].payloads) {
      var h := v.handlers[t];
      StepKeepsHandlerNames(c, w, s, t);
      NamesPersist(w.store, v.store, h.id, h.hash, h.payloads);
    }
    forall t | t in v.offers ensures Names(v.store, v.offers[t].id, v.offers[t].hash, v.offers[t].payloads) {
      var o := v.offers[t];
      StepKeepsOfferNames(c, w, s, t);
      NamesPersist(w.store, v.store, o.id, o.hash, o.payloads);
    }
  }

  lemma {:induction false} RunKeepsNames(c: Setting, n: U64, m: U64, instant: int, steps: seq<Step>)
    requires Runs(c, Start(n, m, instant), steps)
    ensures NamesInv(After(c, Start(n, m, instant), steps))
    decreases |steps|
  {
    if steps != [] {
      var front := steps[..|steps| - 1];
      RunKeepsNames(c, n, m, instant, front);
      RunKeepsInv(c, n, m, instant, front);
      StepKeepsNames(c, After(c, Start(n, m, instant), front), steps[|steps| - 1]);
    }
  }

  /** An echo in the watcher's hands carries what its restore offered, with the hash that restore armed;
      and if the restored entry is still stored, these are that entry's own hash and payloads. */
  lemma EchoCarriesItsEntry(c: Setting, n: U64, m: U64, instant: int, steps: seq<Step>)
    requires Runs(c, Start(n, m, instant), steps)
    requires var w := After(c, Start(n, m, instant), steps); !w.watcher.Idle? && w.watcher.origin.Some?
    ensures var w := After(c, Start(n, m, instant), steps);
            var t := w.watcher.origin.value;
            && t in w.offers && w.watcher.payloads == w.offers[t].payloads && w.watcher.hash == w.offers[t].hash
            && Armed(w.log, t, w.watcher.hash)
            && forall r :: r in w.store.entries && r.id == w.offers[t].id ==>
                 r.hash == w.watcher.hash && PayloadsOf(w.store.payloads, r.id) == w.watcher.payloads
  {
    RunKeepsInv(c, n, m, instant, steps);
    RunKeepsNames(c, n, m, instant, steps);
  }

  /** A query is answered true exactly when the arm before it is for the same hash, is young enough and
      has not been spent. */
  ghost predicate Spares(log: seq<LogEntry>, l: nat, k: nat)
    requires l < k < |log|
  {
    && log[l].call.hash == log[k].call.hash
    && log[k].call.time <= log[l].call.time + Suppress.SUPPRESS_TTL
    && forall q: nat :: l < q < k ==> !Suppress.AnsweredTrue(Calls(log), q)
  }

  /** The last arm at or after `j`. */
  lemma LastArm(w: World, j: nat, k: nat) returns (l: nat)
    requires j < k <= |w.log| && w.log[j].call.Arm?
    ensures j <= l < k && Suppress.LatestArm(Calls(w.log), l, k)
  {
    var found;
    found, l := Suppress.FindLatestArm(Calls(w.log), k);
    assert Calls(w.log)[j].Arm?;
  }

  lemma QueryAnsweredIff(w: World, l: nat, k: nat)
    requires LogInv(w) && k < |w.log| && w.log[k].call.Query? && Suppress.LatestArm(Calls(w.log), l, k)
    ensures Suppress.AnsweredTrue(Calls(w.log), k) <==> Spares(w.log, l, k)
  {
    Suppress.AnswerIffNotConsumed(Calls(w.log), k);
  }

  /** Exactly when an echo is suppressed.  Its own restore has armed before it, because a restore arms
      before it offers; so there is a latest arm before its question, at `l`: its own or that of a later
      restore.  The echo is suppressed exactly if that arm is for the same hash, has not expired, and has
      not been spent on an earlier capture. */
  lemma EchoSuppressedIff(c: Setting, n: U64, m: U64, instant: int, steps: seq<Step>, k: nat, ticket: nat)
      returns (j: nat, l: nat)
    requires Runs(c, Start(n, m, instant), steps)
    requires var log := After(c, Start(n, m, instant), steps).log;
             k < |log| && log[k].party == ByWatcher(Some(ticket))
    ensures var log := After(c, Start(n, m, instant), steps).log;
            && j <= l < k && ArmedAt(log, j, ticket, log[k].call.hash)
            && Suppress.LatestArm(Calls(log), l, k) && (l > j ==> log[l].party != ByRestore(ticket))
            && (Suppress.AnsweredTrue(Calls(log), k) <==> Spares(log, l, k))
  {
    var w := After(c, Start(n, m, instant), steps);
    RunKeepsInv(c, n, m, instant, steps);
    assert LogEntryOk(w, k);
    j :| j < k && ArmedAt(w.log, j, ticket, w.offers[ticket].hash);
    l := LastArm(w, j, k);
    QueryAnsweredIff(w, l, k);
    assert LogEntryOk(w, j);
  }

  /** Where other applications may offer two types, and a single one whose data runs them together, no
      digest is free of collisions. */
  lemma OpenEnvironmentsCollide(c: Setting)
    requires (c.known)(TwoTypes()) && (c.known)(RunTogether())
    ensures !CollisionFree(c)
  {
    HashCollisionWitness();
    assert HashOf(c.env, TwoTypes()) == HashOf(c.env, RunTogether());
  }

  /** The collision hypothesis can be met: by any collision-free digest, for NUL-free payloads. */
  lemma NulFreePayloadsAreCollisionFree(c: Setting)
    requires forall x, y {:trigger (c.env.digest)(x), (c.env.digest)(y)} ::
               (c.env.digest)(x) == (c.env.digest)(y) ==> x == y
    requires forall ps :: (c.known)(ps) ==> StrictByMime(ps) && NulFreeMimes(ps) && NulFreeData(ps)
    ensures CollisionFree(c)
  {
    forall a, b | (c.known)(a) && (c.known)(b) && HashOf(c.env, a) == HashOf(c.env, b) ensures a == b {
      HashStreamInjective(a, b);
      PermutationFacts(a, b);
      StrictUnique(a, b);
    }
  }
}
