/** The draining loop itself, run against a kernel that lets the source move whenever the reader is
    inside a call.  The kernel records the run, so the loop's result can be read off the protocol. */
module DrainReader {
  import opened Prelude
  import opened Drain
  import opened DrainTheorems

  datatype ReadError = TooLargeError(limit: nat) | TimedOutError | PollingError

  datatype DrainResult = Ok(payloads: seq<Payload>) | Err(error: ReadError)

  /** One descriptor reported by poll; `invalid` is POLLNVAL. */
  datatype Event = Event(index: nat, invalid: bool)

  datatype PollOutcome = Ready(events: seq<Event>) | Idle | Interrupted | Errno

  datatype ReadOutcome = Chunk(bytes: Bytes) | EndOfFile | ReadFailed

  function Indices(events: seq<Event>): (r: seq<nat>)
    ensures |r| == |events| && forall i :: 0 <= i < |events| ==> r[i] == events[i].index
  {
    seq(|events|, i requires 0 <= i < |events| => events[i].index)
  }

  /** What draining a fault-free source must return, read off its script. */
  function DrainSpec(mimes: seq<Bytes>, script: seq<Op>, limit: nat): DrainResult {
    if ScriptBytes(script) <= limit then Ok(Collect(mimes, WrittenPerPipe(script, |mimes|)))
    else Err(TooLargeError(limit))
  }

  /** The pipes, the source that writes into them, and the signals that may interrupt a poll.  Faults
      happen only when `faulty`. */
  class Kernel {
    ghost const source: seq<Op>
    ghost const capacities: seq<nat>
    ghost const limit: nat
    const faulty: bool
    var script: seq<Op>
    var pipes: seq<Pipe>
    var signals: nat
    ghost var trace: seq<Action>

    constructor (source: seq<Op>, capacities: seq<nat>, limit: nat, faulty: bool, signals: nat)
      requires LegalSource(source, capacities)
      requires !faulty ==> ClosesAll(source, OpenPipes(Initial(source, capacities).pipes))
      ensures this.source == source && this.capacities == capacities && this.limit == limit && this.faulty == faulty
      ensures trace == [] && Valid()
    {
      this.source, this.capacities, this.limit, this.faulty := source, capacities, limit, faulty;
      this.script := source;
      this.pipes := seq(|capacities|, i requires 0 <= i < |capacities| => Pipe(capacities[i], [], false));
      this.signals := signals;
      trace := [];
      new;
      InitialInv(source, limit, capacities);
      InvInRange(source, limit, Now());
    }

    ghost function Start(): State { Initial(source, capacities) }

    /** The protocol state the recorded run has reached. */
    ghost function Now(): State
      requires Runs(limit, Start(), trace)
      reads this
    {
      After(limit, Start(), trace)
    }

    ghost predicate Valid()
      reads this
    {
      && LegalSource(source, capacities)
      && Runs(limit, Start(), trace)
      && (!Now().phase.Returned? ==> script == Now().script && pipes == Now().pipes)
      && Inv(source, limit, Now()) && InRange(Now())
      && (!faulty ==> AllClean(trace) && CleanInv(source, limit, Now()) && ClosesAll(source, OpenPipes(Start().pipes)))
    }

    /** Nothing but the source's own state has moved. */
    twostate predicate OnlySourceMoved()
      requires old(Valid()) && Valid()
      reads this
    {
      && old(Now()).(script := script, pipes := pipes) == Now()
      && |pipes| == |old(pipes)|
      && forall i :: 0 <= i < |pipes| && old(pipes)[i].Readable() ==> pipes[i].Readable()
    }

    ghost method Record(a: Action)
      requires Valid() && Enabled(Now(), a) && (faulty || a.Clean())
      modifies this`trace
      ensures trace == old(trace) + [a] && Runs(limit, Start(), trace)
      ensures Now() == Next(limit, old(Now()), a)
      ensures Inv(source, limit, Now()) && InRange(Now())
      ensures !faulty ==> AllClean(trace) && CleanInv(source, limit, Now())
    {
      StepKeepsInv(source, limit, Now(), a);
      if !faulty {
        CleanStepKeepsInv(source, limit, Now(), a);
      }
      ghost var before := trace;
      trace := trace + [a];
      assert trace[..|trace| - 1] == before;
      InvInRange(source, limit, Now());
    }

    /** The source takes the next step of its script, writing `count` bytes if that is a write. */
    method SourceStep(count: nat)
      requires Valid() && script != [] && !Now().phase.Returned?
      requires Enabled(Now(), if script[0].Write? then Push(count) else Shut)
      modifies this`script, this`pipes, this`trace
      ensures Valid() && OnlySourceMoved()
      ensures ScriptBytes(script) + |script| < ScriptBytes(old(script)) + |old(script)|
    {
      var op := script[0];
      ghost var a := if op.Write? then Push(count) else Shut;
      SourceMovesOnly(limit, Now(), a);
      Record(a);
      var i := op.pipe;
      match op {
        case Write(_, data) =>
          script := if count == |data| then script[1..] else [Write(i, data[count..])] + script[1..];
          pipes := pipes[i := pipes[i].(buffer := pipes[i].buffer + data[..count])];
        case Close(_) =>
          script := script[1..];
          pipes := pipes[i := pipes[i].(closed := true)];
      }
    }

    /** The source cannot go on: its script is over, or the pipe it is writing is full. */
    ghost predicate Blocked()
      reads this
    {
      script != [] ==>
        script[0].Write? && script[0].data != [] && script[0].pipe < |pipes|
        && |pipes[script[0].pipe].buffer| >= pipes[script[0].pipe].capacity
    }

    /** One step of the source, of any size that fits, unless it is blocked. */
    method SourceTriesStep() returns (moved: bool)
      requires Valid() && !Now().phase.Returned?
      modifies this`script, this`pipes, this`trace
      ensures Valid() && OnlySourceMoved()
      ensures moved ==> ScriptBytes(script) + |script| < ScriptBytes(old(script)) + |old(script)|
      ensures !moved ==> Blocked() && unchanged(this)
    {
      if script == [] {
        return false;
      }
      var op := script[0];
      assert ChannelOk(source, Now(), op.pipe);
      var count := 0;
      if op.Write? && op.data != [] {
        var room := pipes[op.pipe].capacity - |pipes[op.pipe].buffer|;
        if room <= 0 {
          return false;
        }
        count :| 0 < count <= room && count <= |op.data|;
      }
      SourceStep(count);
      moved := true;
    }

    /** While the reader is busy elsewhere the source runs for as long as it likes. */
    method SourceRuns()
      requires Valid() && !Now().phase.Returned?
      modifies this`script, this`pipes, this`trace
      ensures Valid() && OnlySourceMoved()
    {
      while *
        invariant Valid() && OnlySourceMoved()
        decreases ScriptBytes(script) + |script|
      {
        var moved := SourceTriesStep();
        if !moved {
          return;
        }
      }
    }

    /** Waits until one of the active pipes can be read.  Without faults that always happens: while
        none can, the source is not blocked. */
    method Poll(active: seq<nat>) returns (r: PollOutcome)
      requires Valid() && Now().phase.Polling? && !AllDone(Now())
      requires NoDuplicates(active)
      requires forall i: nat :: i in active <==> i < |Now().slots| && !Now().slots[i].done
      modifies this
      ensures Valid()
      ensures old(Now()).(script := script, pipes := pipes, phase := Now().phase) == Now()
      ensures match r
              case Ready(events) => events != [] && Now().phase == Reading(Indices(events))
                                    && (!faulty ==> forall e :: e in events ==> !e.invalid)
              case Interrupted => Now().phase.Polling? && signals < old(signals)
              case Idle => faulty && Now().phase == Returned(TimedOut)
              case Errno => faulty && Now().phase == Returned(PollFailed)
      ensures signals <= old(signals)
    {
      SourceRuns();
      var fault: bool := *;
      if faulty && fault {
        Record(Action.PollError);
        return Errno;
      }
      var events, interrupted := Await(active);
      if events == [] {
        return if interrupted then Interrupted else Idle;
      }
      EventsArePollable(events);
      Record(Action.Poll(Indices(events)));
      r := Ready(events);
    }

    /** Lets the source move until a pipe can be read, a signal comes or the time is up. */
    method Await(active: seq<nat>) returns (events: seq<Event>, interrupted: bool)
      requires Valid() && Now().phase.Polling? && !AllDone(Now())
      requires NoDuplicates(active)
      requires forall i: nat :: i in active <==> i < |Now().slots| && !Now().slots[i].done
      modifies this
      ensures Valid() && signals <= old(signals)
      ensures forall e :: e in events ==> Pollable(Now(), e.index) && (!faulty ==> !e.invalid)
      ensures NoDuplicates(Indices(events))
      ensures events != [] || interrupted ==> OnlySourceMoved()
      ensures events == [] && interrupted ==> signals < old(signals)
      ensures events == [] && !interrupted ==>
                faulty && old(Now()).(script := script, pipes := pipes, phase := Returned(TimedOut)) == Now()
    {
      interrupted := false;
      events := ReadyEvents(active);
      while events == []
        invariant Valid() && OnlySourceMoved() && signals == old(signals)
        invariant forall e :: e in events ==> Pollable(Now(), e.index) && (!faulty ==> !e.invalid)
        invariant NoDuplicates(Indices(events))
        invariant events == [] ==> forall i :: i in active ==> !pipes[i].Readable()
        decreases ScriptBytes(script) + |script|
      {
        var interrupt: bool := *;
        if signals > 0 && interrupt {
          signals := signals - 1;
          return [], true;
        }
        NothingToPoll(active);
        SourceBlockedOnlyByFaults();
        var moved := SourceTriesStep();
        if !moved {
          Record(Action.Timeout);
          return [], false;
        }
        events := ReadyEvents(active);
      }
    }

    lemma NothingToPoll(active: seq<nat>)
      requires Valid() && Now().phase.Polling?
      requires forall i: nat :: i < |Now().slots| && !Now().slots[i].done ==> i in active && !pipes[i].Readable()
      ensures NothingPollable(Now())
    {
    }

    lemma EventsArePollable(events: seq<Event>)
      requires Valid() && forall e :: e in events ==> Pollable(Now(), e.index)
      ensures forall i :: i in Indices(events) ==> Pollable(Now(), i)
    {
      forall i | i in Indices(events) ensures Pollable(Now(), i) {
        var k :| 0 <= k < |events| && Indices(events)[k] == i;
        assert events[k] in events;
      }
    }

    /** Without faults, the source is never blocked while nothing can be polled. */
    lemma SourceBlockedOnlyByFaults()
      requires Valid() && Now().phase.Polling? && !AllDone(Now()) && NothingPollable(Now())
      ensures Blocked() ==> faulty
    {
      if !faulty {
        var a := SourceCanMove(source, limit, Now());
      }
    }

    /** The active pipes that are readable, in order. */
    method ReadyEvents(active: seq<nat>) returns (events: seq<Event>)
      requires Valid() && Now().phase.Polling? && NoDuplicates(active)
      requires forall i :: i in active ==> i < |pipes| && !Now().slots[i].done
      ensures forall e :: e in events ==> Pollable(Now(), e.index) && (!faulty ==> !e.invalid)
      ensures NoDuplicates(Indices(events))
      ensures events == [] ==> forall i :: i in active ==> !pipes[i].Readable()
    {
      events := [];
      for k := 0 to |active|
        invariant forall i :: i in active ==> i < |pipes|
        invariant forall e :: e in events ==>
                    e.index in active[..k] && Pollable(Now(), e.index) && (!faulty ==> !e.invalid)
        invariant NoDuplicates(Indices(events))
        invariant forall i :: i in active[..k] ==> i in active
        invariant events == [] ==> forall i :: i in active[..k] ==> !pipes[i].Readable()
      {
        assert active[..k + 1] == active[..k] + [active[k]];
        assert active[k] in active;
        if pipes[active[k]].Readable() {
          var invalid: bool := *;
          ghost var before := Indices(events);
          forall j | 0 <= j < |events| ensures events[j].index != active[k] {
            assert events[j] in events;
          }
          events := events + [Event(active[k], faulty && invalid)];
          assert Indices(events) == before + [active[k]];
        }
      }
    }

    /** Gives up on the pipe at the head of the ready list, whose descriptor is invalid. */
    ghost method Abandon(i: nat)
      requires Valid() && faulty && Now().phase.Reading? && Now().phase.ready[0] == i && i < |Now().slots|
      modifies this`trace
      ensures Valid()
      ensures var was := old(Now());
              Now() == was.(slots := was.slots[i := Slot(was.slots[i].data, true)], failed := was.failed + {i},
                            phase := NextPhase(was.phase.ready))
    {
      Record(Fail);
    }

    /** The reader has seen every pipe through. */
    ghost method Finish()
      requires Valid() && Now().phase.Polling? && AllDone(Now())
      modifies this`trace
      ensures Valid() && Now() == old(Now()).(phase := Returned(Complete))
    {
      Record(Leave);
    }

    /** Reads from the pipe at the head of the ready list.  Poll has promised it will not block. */
    method Read(i: nat) returns (r: ReadOutcome)
      requires Valid() && Now().phase.Reading? && Now().phase.ready[0] == i
      requires i < |Now().slots|
      modifies this`script, this`pipes, this`trace
      ensures Valid()
      ensures var was := old(Now());
              match r
              case Chunk(bytes) =>
                && bytes != []
                && if |bytes| > limit - was.total then Now().phase == Returned(TooLarge)
                   else Now() == was.(script := script, pipes := pipes, total := was.total + |bytes|,
                                      slots := was.slots[i := Slot(was.slots[i].data + bytes, was.slots[i].done)],
                                      phase := NextPhase(was.phase.ready))
              case EndOfFile =>
                Now() == was.(script := script, pipes := pipes, phase := NextPhase(was.phase.ready),
                              slots := was.slots[i := Slot(was.slots[i].data, true)])
              case ReadFailed =>
                faulty && Now() == was.(script := script, pipes := pipes, phase := NextPhase(was.phase.ready),
                                        slots := was.slots[i := Slot(was.slots[i].data, true)],
                                            failed := was.failed + {i})
    {
      SourceRuns();
      assert Pollable(Now(), i);
      var fault: bool := *;
      if faulty && fault {
        Record(Fail);
        return ReadFailed;
      }
      if pipes[i].buffer == [] {
        Record(Eof);
        return EndOfFile;
      }
      var bytes := ReadChunk(i);
      r := Chunk(bytes);
    }

    /** Takes some of what the pipe holds. */
    method ReadChunk(i: nat) returns (bytes: Bytes)
      requires Valid() && Now().phase.Reading? && Now().phase.ready[0] == i
      requires i < |pipes| && pipes[i].buffer != []
      modifies this`pipes, this`trace
      ensures Valid() && bytes != []
      ensures var was := old(Now());
              if |bytes| > limit - was.total then Now().phase == Returned(TooLarge)
              else Now() == was.(pipes := pipes, total := was.total + |bytes|,
                                 slots := was.slots[i := Slot(was.slots[i].data + bytes, was.slots[i].done)],
                                 phase := NextPhase(was.phase.ready))
    {
      var count: nat :| 0 < count <= READ_CHUNK_BYTES && count <= |pipes[i].buffer|;
      bytes := pipes[i].buffer[..count];
      Record(Take(count));
      pipes := pipes[i := pipes[i].(buffer := pipes[i].buffer[count..])];
    }
  }

  lemma InvInRange(script: seq<Op>, limit: nat, s: State)
    requires Inv(script, limit, s)
    ensures InRange(s)
  {
    if s.script != [] {
      assert s.script[0].pipe in OpenPipes(s.pipes);
    }
    if s.phase.Reading? {
      assert Pollable(s, s.phase.ready[0]);
    }
  }

  /** What the protocol's theorems say of the run a kernel has recorded. */
  lemma VerdictOf(kernel: Kernel, mimes: seq<Bytes>)
    requires kernel.Valid() && kernel.Now().phase.Returned? && |mimes| == |kernel.capacities|
    ensures |kernel.Now().slots| == |mimes|
    ensures kernel.Now().phase.verdict.TooLarge? ==> ScriptBytes(kernel.source) > kernel.limit
    ensures !kernel.faulty ==>
              && kernel.Now().phase.verdict == Expected(kernel.source, kernel.limit)
              && (kernel.Now().phase.verdict.Complete? ==>
                    Collect(mimes, SlotData(kernel.Now().slots))
                        == Collect(mimes, WrittenPerPipe(kernel.source, |mimes|)))
  {
    SlotCountKept(kernel.limit, kernel.Start(), kernel.trace);
    if !kernel.faulty {
      VerdictIsScheduleIndependent(kernel.source, kernel.limit, mimes, kernel.capacities, kernel.trace);
    }
  }

  /** The pipes that delivered something, in input order. */
  method NonEmpty(mimes: seq<Bytes>, slots: seq<Slot>) returns (payloads: seq<Payload>)
    requires |mimes| == |slots|
    ensures payloads == Collect(mimes, SlotData(slots))
  {
    payloads := [];
    ghost var datas := SlotData(slots);
    for i := 0 to |slots|
      invariant payloads == Collect(mimes[..i], datas[..i])
    {
      CollectAppend(mimes[..i], datas[..i], mimes[i], datas[i]);
      assert mimes[..i] + [mimes[i]] == mimes[..i + 1] && datas[..i] + [datas[i]] == datas[..i + 1];
      if slots[i].data != [] {
        payloads := payloads + [Payload(mimes[i], slots[i].data)];
      }
    }
    assert mimes[..|mimes|] == mimes && datas[..|datas|] == datas;
  }

  /** A source step changes script and pipes, and takes nothing from what can be read. */
  lemma SourceMovesOnly(limit: nat, s: State, a: Action)
    requires a.OfSource() && Enabled(s, a)
    ensures var t := Next(limit, s, a);
            && s.(script := t.script, pipes := t.pipes) == t && |t.pipes| == |s.pipes|
            && (forall i :: 0 <= i < |s.pipes| && s.pipes[i].Readable() ==> t.pipes[i].Readable())
            && ScriptBytes(t.script) + |t.script| < ScriptBytes(s.script) + |s.script|
  {
    StepLowersScript(limit, s, a);
  }

  /** A source step is a step of its script. */
  lemma StepLowersScript(limit: nat, s: State, a: Action)
    requires a.OfSource() && Enabled(s, a)
    ensures var t := Next(limit, s, a);
            ScriptBytes(t.script) + |t.script| < ScriptBytes(s.script) + |s.script|
  {
    var op := s.script[0];
    assert s.script == [op] + s.script[1..];
    WrittenHead(op, s.script[1..], 0);
    if a.Push? {
      WrittenHead(Write(op.pipe, op.data[a.count..]), s.script[1..], 0);
    }
  }

  /** What a round of polling has to work off: room under the cap, and unfinished pipes. */
  function Outstanding(limit: nat, total: nat, slots: seq<Slot>): int {
    limit - total + SumOf(NotDone, slots)
  }

  method ActiveIndices(slots: seq<Slot>) returns (active: seq<nat>)
    ensures NoDuplicates(active)
    ensures forall i: nat :: i in active <==> i < |slots| && !slots[i].done
  {
    active := [];
    for i := 0 to |slots|
      invariant NoDuplicates(active)
      invariant forall j: nat :: j in active <==> j < i && !slots[j].done
    {
      if !slots[i].done {
        active := active + [i];
      }
    }
  }

  /** Polls until a descriptor is ready, retrying when a signal interrupts. */
  method PollRetrying(kernel: Kernel, active: seq<nat>) returns (r: PollOutcome)
    requires kernel.Valid() && kernel.Now().phase.Polling? && !AllDone(kernel.Now())
    requires NoDuplicates(active)
    requires forall i: nat :: i in active <==> i < |kernel.Now().slots| && !kernel.Now().slots[i].done
    modifies kernel
    ensures kernel.Valid()
    ensures old(kernel.Now()).(script := kernel.script, pipes := kernel.pipes, phase := kernel.Now().phase)
              == kernel.Now()
    ensures match r
            case Ready(events) => events != [] && kernel.Now().phase == Reading(Indices(events))
                                  && (!kernel.faulty ==> forall e :: e in events ==> !e.invalid)
            case Interrupted => false
            case Idle => kernel.faulty && kernel.Now().phase == Returned(TimedOut)
            case Errno => kernel.faulty && kernel.Now().phase == Returned(PollFailed)
  {
    r := kernel.Poll(active);
    while r.Interrupted?
      invariant kernel.Valid()
      invariant old(kernel.Now()).(script := kernel.script, pipes := kernel.pipes, phase := kernel.Now().phase)
                  == kernel.Now()
      invariant match r
                case Ready(events) => events != [] && kernel.Now().phase == Reading(Indices(events))
                                      && (!kernel.faulty ==> forall e :: e in events ==> !e.invalid)
                case Interrupted => kernel.Now().phase.Polling?
                case Idle => kernel.faulty && kernel.Now().phase == Returned(TimedOut)
                case Errno => kernel.faulty && kernel.Now().phase == Returned(PollFailed)
      decreases kernel.signals, r.Interrupted?
    {
      r := kernel.Poll(active);
    }
  }

  /** The state after the head of the ready list has been dealt with. */
  ghost predicate Handled(kernel: Kernel, events: seq<Event>, k: nat, slots: seq<Slot>, total: nat)
    requires k <= |events|
    reads kernel
  {
    && kernel.Valid()
    && kernel.Now().phase == (if k < |events| then Reading(Indices(events)[k..]) else Polling)
    && slots == kernel.Now().slots && total == kernel.Now().total
  }

  /** Deals with one reported descriptor.  Unless the cap is exceeded, that is progress. */
  method HandleEvent(kernel: Kernel, ghost events: seq<Event>,
        ghost k: nat, event: Event, limit: nat, slots: seq<Slot>, total: nat)
      returns (tooLarge: bool, newSlots: seq<Slot>, newTotal: nat)
    requires k < |events| && events[k] == event && kernel.limit == limit
    requires Handled(kernel, events, k, slots, total)
    requires event.invalid ==> kernel.faulty
    modifies kernel`script, kernel`pipes, kernel`trace
    ensures kernel.Valid() && |newSlots| == |slots|
    ensures tooLarge ==> kernel.Now().phase == Returned(TooLarge)
    ensures !tooLarge ==> Handled(kernel, events, k + 1, newSlots, newTotal)
    ensures !tooLarge ==> Outstanding(limit, newTotal, newSlots) < Outstanding(limit, total, slots)
  {
    var index := event.index;
    tooLarge, newSlots, newTotal := false, slots, total;
    assert kernel.Now().phase.ready[0] == index && Pollable(kernel.Now(), index);
    if event.invalid {
      kernel.Abandon(index);
      newSlots := slots[index := Slot(slots[index].data, true)];
    } else {
      var chunk := kernel.Read(index);
      match chunk {
        case Chunk(bytes) =>
          if |bytes| > (if total <= limit then limit - total else 0) {
            return true, slots, total;
          }
          newSlots := slots[index := Slot(slots[index].data + bytes, slots[index].done)];
          newTotal := total + |bytes|;
        case _ =>
          newSlots := slots[index := Slot(slots[index].data, true)];
      }
    }
    SumOfUpdate(NotDone, slots, index, newSlots[index]);
    RestOfIndices(events, k);
  }

  lemma RestOfIndices(events: seq<Event>, k: nat)
    requires k < |events|
    ensures NextPhase(Indices(events)[k..]) == if k + 1 < |events| then Reading(Indices(events)[k + 1..]) else Polling
  {
    assert Indices(events)[k..][1..] == Indices(events)[k + 1..];
  }

  /** Drains every pipe fairly under the cap.  Without faults the result is the one the source's
      script determines, whatever the schedule; with faults the recorded run still explains it. */
  method ReadPayloadPipes(kernel: Kernel, mimes: seq<Bytes>, limit: nat) returns (r: DrainResult)
    requires kernel.Valid() && kernel.trace == [] && kernel.limit == limit && |mimes| == |kernel.capacities|
    modifies kernel
    ensures !kernel.faulty ==> r == DrainSpec(mimes, kernel.source, limit)
    ensures kernel.Valid() && kernel.Now().phase.Returned? && |kernel.Now().slots| == |mimes|
    ensures match r
            case Ok(payloads) => kernel.Now().phase.verdict.Complete?
                && payloads == Collect(mimes, SlotData(kernel.Now().slots))
            case Err(TooLargeError(n)) => kernel.Now().phase.verdict.TooLarge?
                && n == limit && ScriptBytes(kernel.source) > limit
            case Err(TimedOutError) => kernel.Now().phase.verdict.TimedOut? && kernel.faulty
            case Err(PollingError) => kernel.Now().phase.verdict.PollFailed? && kernel.faulty
  {
    var slots := seq(|mimes|, i requires 0 <= i < |mimes| => Slot([], false));
    var total: nat := 0;
    assert slots == kernel.Now().slots;
    while exists i :: 0 <= i < |slots| && !slots[i].done
      invariant kernel.Valid() && kernel.Now().phase.Polling?
      invariant slots == kernel.Now().slots && total == kernel.Now().total && |slots| == |mimes|
      decreases Outstanding(limit, total, slots)
    {
      ghost var before := Outstanding(limit, total, slots);
      var active := ActiveIndices(slots);
      var polled := PollRetrying(kernel, active);
      if !polled.Ready? {
        VerdictOf(kernel, mimes);
        return Err(if polled.Idle? then TimedOutError else PollingError);
      }
      var events := polled.events;
      assert Indices(events)[0..] == Indices(events);
      for k := 0 to |events|
        invariant Handled(kernel, events, k, slots, total) && |slots| == |mimes|
        invariant if k == 0 then Outstanding(limit, total, slots) == before
                    else Outstanding(limit, total, slots) < before
      {
        assert events[k] in events;
        var tooLarge;
        tooLarge, slots, total := HandleEvent(kernel, events, k, events[k], limit, slots, total);
        if tooLarge {
          VerdictOf(kernel, mimes);
          return Err(TooLargeError(limit));
        }
      }
    }
    kernel.Finish();
    VerdictOf(kernel, mimes);
    var payloads := NonEmpty(mimes, slots);
    r := Ok(payloads);
  }
}
