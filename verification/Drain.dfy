/** The pipe-draining protocol as a step system: a clipboard source that runs a script of blocking
    writes and closes, a set of bounded pipes, and the polling reader.  Every interleaving of the
    three is a run. */
module Drain {
  import opened Prelude

  const READ_CHUNK_BYTES: nat := 65536

  /** What the source does next: a blocking `write_all`, or closing its end of one pipe. */
  datatype Op = Write(pipe: nat, data: Bytes) | Close(pipe: nat)

  datatype Pipe = Pipe(capacity: nat, buffer: Bytes, closed: bool) {
    /** The descriptor polls as readable, either with data or hung up. */
    predicate Readable() { buffer != [] || closed }
  }

  /** The reader's own record of a pipe. */
  datatype Slot = Slot(data: Bytes, done: bool)

  datatype Verdict = Complete | TooLarge | TimedOut | PollFailed

  datatype Phase = Polling | Reading(ready: seq<nat>) | Returned(verdict: Verdict)

  datatype State = State(
    script: seq<Op>,
    pipes: seq<Pipe>,
    slots: seq<Slot>,
    total: nat,
    failed: set<nat>,
    phase: Phase)

  /** `Push` and `Shut` belong to the source, the others to the reader.  The last three are faults
      of the environment: a failed read or invalid descriptor, an idle timeout, a failed poll. */
  datatype Action =
    | Push(count: nat)
    | Shut
    | Poll(ready: seq<nat>)
    | Take(count: nat)
    | Eof
    | Leave
    | Fail
    | Timeout
    | PollError
  {
    predicate Clean() { !Fail? && !Timeout? && !PollError? }
    predicate OfSource() { Push? || Shut? }
  }

  // ----- what a script means

  /** Everything the script writes into pipe `i`. */
  function Written(script: seq<Op>, i: nat): Bytes {
    if script == [] then []
    else (if script[0].Write? && script[0].pipe == i then script[0].data else []) + Written(script[1..], i)
  }

  function ScriptBytes(script: seq<Op>): nat {
    if script == [] then 0
    else (if script[0].Write? then |script[0].data| else 0) + ScriptBytes(script[1..])
  }

  /** Only open pipes are written or closed. */
  predicate Legal(script: seq<Op>, open: set<nat>) {
    script != [] ==>
      && script[0].pipe in open
      && Legal(script[1..], if script[0].Close? then open - {script[0].pipe} else open)
  }

  predicate ClosesAll(script: seq<Op>, open: set<nat>) {
    forall i :: i in open ==> Close(i) in script
  }

  function OpenPipes(pipes: seq<Pipe>): set<nat> {
    set i: nat | i < |pipes| && !pipes[i].closed
  }

  // ----- the reader's result

  function Collect(mimes: seq<Bytes>, datas: seq<Bytes>): (r: seq<Payload>)
    requires |mimes| == |datas|
  {
    if mimes == [] then []
    else (if datas[0] == [] then [] else [Payload(mimes[0], datas[0])]) + Collect(mimes[1..], datas[1..])
  }

  function SlotData(slots: seq<Slot>): seq<Bytes> {
    seq(|slots|, i requires 0 <= i < |slots| => slots[i].data)
  }

  function WrittenPerPipe(script: seq<Op>, n: nat): seq<Bytes> {
    seq(n, i requires 0 <= i < n => Written(script, i))
  }

  // ----- the step system

  function Initial(script: seq<Op>, capacities: seq<nat>): State {
    State(script,
          seq(|capacities|, i requires 0 <= i < |capacities| => Pipe(capacities[i], [], false)),
          seq(|capacities|, i requires 0 <= i < |capacities| => Slot([], false)),
          0, {}, Polling)
  }

  predicate AllDone(s: State) {
    forall i :: 0 <= i < |s.slots| ==> s.slots[i].done
  }

  predicate Pollable(s: State, i: nat) {
    i < |s.slots| == |s.pipes| && !s.slots[i].done && s.pipes[i].Readable()
  }

  predicate NothingPollable(s: State) {
    forall i :: 0 <= i < |s.slots| ==> !Pollable(s, i)
  }

  predicate InRange(s: State) {
    && |s.pipes| == |s.slots|
    && (s.script != [] ==> s.script[0].pipe < |s.pipes|)
    && (s.phase.Reading? ==> s.phase.ready != [] && s.phase.ready[0] < |s.pipes|)
  }

  predicate Enabled(s: State, a: Action) {
    InRange(s) && !s.phase.Returned? &&
    match a
    case Push(k) =>
      && s.script != [] && s.script[0].Write?
      && k <= |s.script[0].data| && (k == 0 ==> s.script[0].data == [])
      && |s.pipes[s.script[0].pipe].buffer| + k <= s.pipes[s.script[0].pipe].capacity
    case Shut => s.script != [] && s.script[0].Close?
    case Poll(ready) =>
      s.phase.Polling? && ready != [] && NoDuplicates(ready) && forall i :: i in ready ==> Pollable(s, i)
    case Take(k) => s.phase.Reading? && 0 < k <= READ_CHUNK_BYTES && k <= |s.pipes[s.phase.ready[0]].buffer|
    case Eof => s.phase.Reading? && s.pipes[s.phase.ready[0]].buffer == [] && s.pipes[s.phase.ready[0]].closed
    case Leave => s.phase.Polling? && AllDone(s)
    case Fail => s.phase.Reading?
    case Timeout => s.phase.Polling? && !AllDone(s) && NothingPollable(s)
    case PollError => s.phase.Polling? && !AllDone(s)
  }

  /** The phase after the head of a ready list has been dealt with. */
  function NextPhase(ready: seq<nat>): Phase {
    if |ready| <= 1 then Polling else Reading(ready[1..])
  }

  function Next(limit: nat, s: State, a: Action): State
    requires Enabled(s, a)
  {
    match a
    case Push(k) =>
      var Write(i, data) := s.script[0];
      s.(script := if k == |data| then s.script[1..] else [Write(i, data[k..])] + s.script[1..],
         pipes := s.pipes[i := s.pipes[i].(buffer := s.pipes[i].buffer + data[..k])])
    case Shut =>
      var i := s.script[0].pipe;
      s.(script := s.script[1..], pipes := s.pipes[i := s.pipes[i].(closed := true)])
    case Poll(ready) => s.(phase := Reading(ready))
    case Take(k) =>
      var i := s.phase.ready[0];
      if k > (if s.total <= limit then limit - s.total else 0) then s.(phase := Returned(TooLarge))
      else s.(pipes := s.pipes[i := s.pipes[i].(buffer := s.pipes[i].buffer[k..])],
              slots := s.slots[i := s.slots[i].(data := s.slots[i].data + s.pipes[i].buffer[..k])],
              total := s.total + k,
              phase := NextPhase(s.phase.ready))
    case Eof =>
      var i := s.phase.ready[0];
      s.(slots := s.slots[i := s.slots[i].(done := true)], phase := NextPhase(s.phase.ready))
    case Fail =>
      var i := s.phase.ready[0];
      s.(slots := s.slots[i := s.slots[i].(done := true)], failed := s.failed + {i},
         phase := NextPhase(s.phase.ready))
    case Leave => s.(phase := Returned(Complete))
    case Timeout => s.(phase := Returned(TimedOut))
    case PollError => s.(phase := Returned(PollFailed))
  }

  /** `acts` can be taken one after the other from `s`. */
  predicate Runs(limit: nat, s: State, acts: seq<Action>)
    decreases |acts|, 0
  {
    acts == [] || (Runs(limit, s, acts[..|acts| - 1]) && Enabled(After(limit, s, acts[..|acts| - 1]), acts[|acts| - 1]))
  }

  function After(limit: nat, s: State, acts: seq<Action>): State
    requires Runs(limit, s, acts)
    decreases |acts|, 1
  {
    if acts == [] then s else Next(limit, After(limit, s, acts[..|acts| - 1]), acts[|acts| - 1])
  }

  predicate AllClean(acts: seq<Action>) {
    forall a :: a in acts ==> a.Clean()
  }
}
