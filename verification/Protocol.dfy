/** The server's handlers, the restoring threads and the watcher, interleaved at the granularity of
    their locks. */
module Protocol {
  import opened Prelude
  import opened Tables
  import opened Watcher
  import opened Echo
  import Suppress

  /** A restore between its lock-protected steps. */
  datatype Handler =
    | Looked(id: nat, hash: Bytes, payloads: seq<Payload>)
    | SlotArmed(id: nat, hash: Bytes, payloads: seq<Payload>)

  /** Payloads being offered by a restoring thread. */
  datatype Restored = Restored(id: nat, hash: Bytes, payloads: seq<Payload>)

  /** The watcher: idle, about to ask whether to suppress, or about to store.  `origin` is the restore
      whose offer it read, if it was one of ours. */
  datatype Watching =
    | Idle
    | Hashed(origin: Option<nat>, payloads: seq<Payload>, hash: Bytes)
    | Unsuppressed(origin: Option<nat>, payloads: seq<Payload>, hash: Bytes)

  /** Who used the suppression slot. */
  datatype Party = ByRestore(ticket: nat) | ByWatcher(origin: Option<nat>)

  datatype LogEntry = LogEntry(call: Suppress.Call, party: Party)

  datatype World = World(
    store: History,
    cell: Suppress.Cell,
    instant: int,
    tickets: nat,
    handlers: map<nat, Handler>,
    offers: map<nat, Restored>,
    watcher: Watching,
    log: seq<LogEntry>)

  /** The steps.  `now` is what the wall clock said when it was read, which may be well before the step:
      nothing relates one step's to another's.  `trimmed` is what trimming left. */
  datatype Step =
    | Lookup(id: nat, now: int)
    | ArmSlot(ticket: nat, time: int)
    | Spawn(ticket: nat)
    | SeeEcho(ticket: nat, mimes: seq<Bytes>, order: seq<nat>)
    | SeeOther(payloads: seq<Payload>)
    | Ask(time: int)
    | Keep(now: int, trimmed: History)
    | Remove(id: nat)
    | Wipe
    | Reload(maxEntries: U64, maxHistorySize: U64, trimmed: History)

  /** The library functions, and the payload lists that other applications may put on the clipboard. */
  datatype Setting = Setting(env: Env, known: seq<Payload> -> bool)

  /** No two lists that occur share a hash. */
  ghost predicate CollisionFree(c: Setting) {
    forall a, b {:trigger HashOf(c.env, a), HashOf(c.env, b)} ::
      (c.known)(a) && (c.known)(b) && HashOf(c.env, a) == HashOf(c.env, b) ==> a == b
  }

  function RowOf(rows: seq<Row>, id: nat): (r: Option<Row>)
    ensures r.Some? ==> r.value in rows && r.value.id == id
    ensures r.None? ==> forall x :: x in rows ==> x.id != id
  {
    if rows == [] then None else if rows[0].id == id then Some(rows[0]) else RowOf(rows[1..], id)
  }

  ghost predicate Enabled(c: Setting, w: World, s: Step) {
    match s
    case Lookup(_, _) => true
    case ArmSlot(ticket, time) => ticket in w.handlers && w.handlers[ticket].Looked? && w.instant <= time
    case Spawn(ticket) => ticket in w.handlers && w.handlers[ticket].SlotArmed?
    case SeeEcho(ticket, mimes, order) =>
      && w.watcher.Idle? && ticket in w.offers && Offered(mimes, w.offers[ticket].payloads) && Covers(order, |mimes|)
      && Captured(mimes, EchoScript(w.offers[ticket].payloads, mimes, order)).Some?
    case SeeOther(ps) => w.watcher.Idle? && Capturable(ps) && (c.known)(ps)
    case Ask(time) => w.watcher.Hashed? && w.instant <= time
    case Keep(now, trimmed) =>
      w.watcher.Unsuppressed? && TrimsTo(Stored(w.store, EntryFor(c.env, w.watcher.payloads, now)), trimmed)
    case Reload(n, m, trimmed) => TrimsTo(w.store.(maxEntries := n, maxHistorySize := m), trimmed)
    case Remove(_) => true
    case Wipe => true
  }

  ghost function Next(c: Setting, w: World, s: Step): World
    requires Enabled(c, w, s)
  {
    match s
    case Lookup(id, now) =>
      var row := RowOf(w.store.entries, id);
      if row.None? then w
      else w.(store := Touched(w.store, id, now), tickets := w.tickets + 1,
              handlers := w.handlers[w.tickets := Looked(id, row.value.hash, PayloadsOf(w.store.payloads, id))])
    case ArmSlot(ticket, time) =>
      var h := w.handlers[ticket];
      var call := Suppress.Arm(h.hash, time);
      w.(cell := Suppress.CellAfter(w.cell, call), instant := time,
         handlers := w.handlers[ticket := SlotArmed(h.id, h.hash, h.payloads)],
         log := w.log + [LogEntry(call, ByRestore(ticket))])
    case Spawn(ticket) =>
      var h := w.handlers[ticket];
      w.(handlers := w.handlers - {ticket}, offers := w.offers[ticket := Restored(h.id, h.hash, h.payloads)])
    case SeeEcho(ticket, mimes, order) =>
      var ps := Captured(mimes, EchoScript(w.offers[ticket].payloads, mimes, order)).value;
      w.(watcher := Hashed(Some(ticket), ps, HashOf(c.env, ps)))
    case SeeOther(ps) => w.(watcher := Hashed(None, ps, HashOf(c.env, ps)))
    case Ask(time) =>
      var call := Suppress.Query(w.watcher.hash, time);
      w.(cell := Suppress.CellAfter(w.cell, call), instant := time,
         log := w.log + [LogEntry(call, ByWatcher(w.watcher.origin))],
         watcher := if Suppress.Answer(w.cell, w.watcher.hash, time) then Idle
                    else Unsuppressed(w.watcher.origin, w.watcher.payloads, w.watcher.hash))
    case Keep(_, trimmed) => w.(store := trimmed, watcher := Idle)
    case Remove(id) => w.(store := Deleted(w.store, id))
    case Wipe => w.(store := Cleared(w.store))
    case Reload(_, _, trimmed) => w.(store := trimmed)
  }

  function Calls(log: seq<LogEntry>): (r: seq<Suppress.Call>)
    ensures |r| == |log| && forall i :: 0 <= i < |log| ==> r[i] == log[i].call
  {
    seq(|log|, i requires 0 <= i < |log| => log[i].call)
  }

  function Start(maxEntries: U64, maxHistorySize: U64, instant: int): World {
    World(History([], [], 0, 0, maxEntries, maxHistorySize), None, instant, 0, map[], map[], Idle, [])
  }

  ghost predicate Runs(c: Setting, w: World, steps: seq<Step>)
    decreases |steps|, 0
  {
    steps == [] ||
    (Runs(c, w, steps[..|steps| - 1]) && Enabled(c, After(c, w, steps[..|steps| - 1]), steps[|steps| - 1]))
  }

  ghost function After(c: Setting, w: World, steps: seq<Step>): World
    requires Runs(c, w, steps)
    decreases |steps|, 1
  {
    if steps == [] then w else Next(c, After(c, w, steps[..|steps| - 1]), steps[|steps| - 1])
  }
}
