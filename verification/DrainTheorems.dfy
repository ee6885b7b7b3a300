/** What every run of the draining protocol keeps, and how every run ends. */
module DrainTheorems {
  import opened Prelude
  import opened Drain

  function HeldBytes(slot: Slot): nat { |slot.data| }

  function BufferedBytes(pipe: Pipe): nat { |pipe.buffer| }

  function Held(s: State): nat { SumOf(HeldBytes, s.slots) }

  function Buffered(s: State): nat { SumOf(BufferedBytes, s.pipes) }

  /** No byte is lost, duplicated or reordered on its way through pipe `i`. */
  predicate Conserves(script: seq<Op>, s: State, i: nat)
    requires i < |s.slots| == |s.pipes|
  {
    s.slots[i].data + s.pipes[i].buffer + Written(s.script, i) == Written(script, i)
  }

  ghost predicate ChannelOk(script: seq<Op>, s: State, i: nat)
    requires i < |s.slots| == |s.pipes|
  {
    && 0 < s.pipes[i].capacity
    && |s.pipes[i].buffer| <= s.pipes[i].capacity
    && Conserves(script, s, i)
    && (i in s.failed ==> s.slots[i].done)
    && (s.slots[i].done && i !in s.failed ==> s.pipes[i].buffer == [] && s.pipes[i].closed)
  }

  /** What every step keeps, whatever the source script, the schedule, the chunking or the faults. */
  ghost predicate Inv(script: seq<Op>, limit: nat, s: State) {
    && |s.pipes| == |s.slots|
    && Legal(s.script, OpenPipes(s.pipes))
    && (forall i :: 0 <= i < |s.slots| ==> ChannelOk(script, s, i))
    && s.total == Held(s) <= limit
    && Held(s) + Buffered(s) + ScriptBytes(s.script) == ScriptBytes(script)
    && PhaseOk(script, limit, s)
  }

  ghost predicate PhaseOk(script: seq<Op>, limit: nat, s: State) {
    match s.phase
    case Polling => true
    case Reading(ready) => ready != [] && NoDuplicates(ready) && forall i :: i in ready ==> Pollable(s, i)
    case Returned(Complete) => AllDone(s)
    case Returned(TooLarge) => ScriptBytes(script) > limit
    case Returned(_) => true
  }

  /** The source only uses the pipes it was given, and each of them can hold at least one byte. */
  predicate LegalSource(script: seq<Op>, capacities: seq<nat>) {
    && Legal(script, OpenPipes(Initial(script, capacities).pipes))
    && forall i :: 0 <= i < |capacities| ==> 0 < capacities[i]
  }

  // ----- facts about scripts

  lemma {:induction false} WrittenHead(op: Op, rest: seq<Op>, i: nat)
    ensures Written([op] + rest, i) == (if op.Write? && op.pipe == i then op.data else []) + Written(rest, i)
    ensures ScriptBytes([op] + rest) == (if op.Write? then |op.data| else 0) + ScriptBytes(rest)
  {
    assert ([op] + rest)[1..] == rest;
  }

  lemma {:induction false} ClosedMeansWritten(script: seq<Op>, open: set<nat>, i: nat)
    requires Legal(script, open) && i !in open
    ensures Written(script, i) == []
  {
    if script != [] {
      ClosedMeansWritten(script[1..], if script[0].Close? then open - {script[0].pipe} else open, i);
    }
  }

  /** Moving a prefix of the data being written into the buffer changes nothing in total. */
  lemma Regroup(held: Bytes, buffer: Bytes, data: Bytes, k: nat, later: Bytes)
    requires k <= |data|
    ensures held + (buffer + data[..k]) + (data[k..] + later) == held + buffer + (data + later)
  {
    assert data == data[..k] + data[k..];
  }

  // ----- the invariant

  lemma {:induction false} InitialInv(script: seq<Op>, limit: nat, capacities: seq<nat>)
    requires LegalSource(script, capacities)
    ensures Inv(script, limit, Initial(script, capacities))
  {
    var s := Initial(script, capacities);
    SumOfZero(HeldBytes, s.slots);
    SumOfZero(BufferedBytes, s.pipes);
  }

  lemma {:induction false} PushConserves(script: seq<Op>, limit: nat, s: State, k: nat, j: nat)
    requires Enabled(s, Push(k)) && j < |s.slots| && ChannelOk(script, s, j)
    requires s.script[0].pipe in OpenPipes(s.pipes)
    ensures ChannelOk(script, Next(limit, s, Push(k)), j)
  {
    var t := Next(limit, s, Push(k));
    var Write(i, data) := s.script[0];
    var rest := s.script[1..];
    assert s.script == [s.script[0]] + rest;
    WrittenHead(s.script[0], rest, j);
    WrittenHead(Write(i, data[k..]), rest, j);
    if j == i {
      assert Written(t.script, i) == data[k..] + Written(rest, i);
      Regroup(s.slots[i].data, s.pipes[i].buffer, data, k, Written(rest, i));
    } else {
      assert Written(t.script, j) == Written(s.script, j);
    }
  }

  lemma {:induction false} PushKeepsInv(script: seq<Op>, limit: nat, s: State, k: nat)
    requires Inv(script, limit, s) && Enabled(s, Push(k))
    ensures Inv(script, limit, Next(limit, s, Push(k)))
  {
    var t := Next(limit, s, Push(k));
    var Write(i, data) := s.script[0];
    var rest := s.script[1..];
    forall j | 0 <= j < |t.slots| ensures ChannelOk(script, t, j) {
      PushConserves(script, limit, s, k, j);
    }
    assert s.script == [s.script[0]] + rest;
    assert OpenPipes(t.pipes) == OpenPipes(s.pipes);
    SumOfUpdate(BufferedBytes, s.pipes, i, t.pipes[i]);
    WrittenHead(s.script[0], rest, i);
    WrittenHead(Write(i, data[k..]), rest, i);
    if k < |data| {
      assert t.script[0] == Write(i, data[k..]) && t.script[1..] == rest;
    }
    PhaseStays(script, limit, s, t);
  }

  lemma {:induction false} ShutKeepsInv(script: seq<Op>, limit: nat, s: State)
    requires Inv(script, limit, s) && Enabled(s, Shut)
    ensures Inv(script, limit, Next(limit, s, Shut))
  {
    var t := Next(limit, s, Shut);
    var i := s.script[0].pipe;
    assert s.script == [s.script[0]] + s.script[1..];
    assert OpenPipes(t.pipes) == OpenPipes(s.pipes) - {i};
    SumOfUpdate(BufferedBytes, s.pipes, i, t.pipes[i]);
    forall j | 0 <= j < |t.slots| ensures ChannelOk(script, t, j) {
      assert ChannelOk(script, s, j);
      WrittenHead(s.script[0], s.script[1..], j);
    }
    WrittenHead(s.script[0], s.script[1..], i);
    PhaseStays(script, limit, s, t);
  }

  /** The source only adds to what can be polled. */
  lemma PhaseStays(script: seq<Op>, limit: nat, s: State, t: State)
    requires PhaseOk(script, limit, s) && !s.phase.Returned? && t.phase == s.phase && t.slots == s.slots
    requires |s.pipes| == |t.pipes| && forall i :: 0 <= i < |s.pipes| && s.pipes[i].Readable() ==> t.pipes[i].Readable()
    ensures PhaseOk(script, limit, t)
  {
    if s.phase.Reading? {
      forall i | i in s.phase.ready ensures Pollable(t, i) {
        assert Pollable(s, i);
      }
    }
  }

  /** After the head of a ready list is dealt with, the others are still as poll found them. */
  lemma RestStillReady(s: State, t: State)
    requires s.phase.Reading? && s.phase.ready != [] && NoDuplicates(s.phase.ready)
    requires forall i :: i in s.phase.ready ==> Pollable(s, i)
    requires |t.slots| == |s.slots| == |s.pipes| == |t.pipes| && t.phase == NextPhase(s.phase.ready)
    requires forall i :: 0 <= i < |s.slots| && i != s.phase.ready[0] ==>
               t.slots[i] == s.slots[i] && t.pipes[i] == s.pipes[i]
    ensures t.phase.Reading? ==>
              t.phase.ready != [] && NoDuplicates(t.phase.ready) && forall i :: i in t.phase.ready ==> Pollable(t, i)
  {
    if t.phase.Reading? {
      var rest := s.phase.ready[1..];
      assert rest[0] == s.phase.ready[1];
      forall i | i in rest ensures Pollable(t, i) {
        assert i in s.phase.ready && Pollable(s, i);
      }
    }
  }

  lemma {:induction false} TakeKeepsInv(script: seq<Op>, limit: nat, s: State, k: nat)
    requires Inv(script, limit, s) && Enabled(s, Take(k))
    ensures Inv(script, limit, Next(limit, s, Take(k)))
  {
    var t := Next(limit, s, Take(k));
    var i := s.phase.ready[0];
    assert Pollable(s, i);
    SumOfMember(BufferedBytes, s.pipes, i);
    if k <= limit - s.total {
      var chunk := s.pipes[i].buffer[..k];
      assert s.pipes[i].buffer == chunk + s.pipes[i].buffer[k..];
      assert OpenPipes(t.pipes) == OpenPipes(s.pipes);
      SumOfUpdate(BufferedBytes, s.pipes, i, t.pipes[i]);
      SumOfUpdate(HeldBytes, s.slots, i, t.slots[i]);
      forall j | 0 <= j < |t.slots| ensures ChannelOk(script, t, j) {
        assert ChannelOk(script, s, j);
        if j == i {
          assert (s.slots[i].data + chunk) + s.pipes[i].buffer[k..] == s.slots[i].data + s.pipes[i].buffer;
        }
      }
      RestStillReady(s, t);
    } else {
      forall j | 0 <= j < |t.slots| ensures ChannelOk(script, t, j) {
        assert ChannelOk(script, s, j);
      }
    }
  }

  lemma {:induction false} DoneKeepsInv(script: seq<Op>, limit: nat, s: State, a: Action)
    requires Inv(script, limit, s) && Enabled(s, a) && (a.Eof? || a.Fail?)
    ensures Inv(script, limit, Next(limit, s, a))
  {
    var t := Next(limit, s, a);
    var i := s.phase.ready[0];
    SumOfUpdate(HeldBytes, s.slots, i, t.slots[i]);
    forall j | 0 <= j < |t.slots| ensures ChannelOk(script, t, j) {
      assert ChannelOk(script, s, j);
    }
    RestStillReady(s, t);
  }

  lemma SlotsKeepInv(script: seq<Op>, limit: nat, s: State, a: Action)
    requires Inv(script, limit, s) && Enabled(s, a) && (a.Poll? || a.Leave? || a.Timeout? || a.PollError?)
    ensures Inv(script, limit, Next(limit, s, a))
  {
    var t := Next(limit, s, a);
    forall j | 0 <= j < |t.slots| ensures ChannelOk(script, t, j) {
      assert ChannelOk(script, s, j);
    }
    forall i | t.phase.Reading? && i in t.phase.ready ensures Pollable(t, i) {
      assert Pollable(s, i);
    }
  }

  lemma {:induction false} StepKeepsInv(script: seq<Op>, limit: nat, s: State, a: Action)
    requires Inv(script, limit, s) && Enabled(s, a)
    ensures Inv(script, limit, Next(limit, s, a))
  {
    match a
    case Push(k) => PushKeepsInv(script, limit, s, k);
    case Shut => ShutKeepsInv(script, limit, s);
    case Take(k) => TakeKeepsInv(script, limit, s, k);
    case Eof => DoneKeepsInv(script, limit, s, a);
    case Fail => DoneKeepsInv(script, limit, s, a);
    case Poll(ready) => SlotsKeepInv(script, limit, s, a);
    case Leave => SlotsKeepInv(script, limit, s, a);
    case Timeout => SlotsKeepInv(script, limit, s, a);
    case PollError => SlotsKeepInv(script, limit, s, a);
  }

  lemma {:induction false} RunKeepsInv(script: seq<Op>, limit: nat, s: State, acts: seq<Action>)
    requires Inv(script, limit, s) && Runs(limit, s, acts)
    ensures Inv(script, limit, After(limit, s, acts))
    decreases |acts|
  {
    if acts != [] {
      var front := acts[..|acts| - 1];
      RunKeepsInv(script, limit, s, front);
      StepKeepsInv(script, limit, After(limit, s, front), acts[|acts| - 1]);
    }
  }

  // ----- runs without faults

  /** A source that closes every pipe, none of whose pipes has failed to be read. */
  ghost predicate CleanInv(script: seq<Op>, limit: nat, s: State) {
    Inv(script, limit, s) && s.failed == {} && ClosesAll(s.script, OpenPipes(s.pipes))
    && (s.phase.Returned? ==> s.phase.verdict.Complete? || s.phase.verdict.TooLarge?)
  }

  lemma CleanStepKeepsInv(script: seq<Op>, limit: nat, s: State, a: Action)
    requires CleanInv(script, limit, s) && Enabled(s, a) && a.Clean()
    ensures CleanInv(script, limit, Next(limit, s, a))
  {
    StepKeepsInv(script, limit, s, a);
    var t := Next(limit, s, a);
    forall i | i in OpenPipes(t.pipes) ensures Close(i) in t.script {
      assert i in OpenPipes(s.pipes);
      if a.OfSource() {
        assert s.script == [s.script[0]] + s.script[1..];
      }
    }
  }

  lemma {:induction false} CleanRunKeepsInv(script: seq<Op>, limit: nat, s: State, acts: seq<Action>)
    requires CleanInv(script, limit, s) && Runs(limit, s, acts) && AllClean(acts)
    ensures CleanInv(script, limit, After(limit, s, acts))
    decreases |acts|
  {
    if acts != [] {
      var front := acts[..|acts| - 1];
      CleanRunKeepsInv(script, limit, s, front);
      CleanStepKeepsInv(script, limit, After(limit, s, front), acts[|acts| - 1]);
    }
  }

  // ----- no deadlock

  /** While a reader waits on open pipes that all look idle, the source can move: the pipe it wants
      to write has all its capacity free. */
  lemma SourceCanMove(script: seq<Op>, limit: nat, s: State) returns (a: Action)
    requires CleanInv(script, limit, s)
    requires s.phase.Polling? && !AllDone(s) && NothingPollable(s)
    ensures a.OfSource() && Enabled(s, a)
  {
    var i :| 0 <= i < |s.slots| && !s.slots[i].done;
    assert ChannelOk(script, s, i) && !Pollable(s, i);
    assert i in OpenPipes(s.pipes) && Close(i) in s.script;
    var op := s.script[0];
    var j := op.pipe;
    assert j in OpenPipes(s.pipes) && ChannelOk(script, s, j) && !Pollable(s, j);
    match op
    case Write(_, data) =>
      a := Push(if |data| <= s.pipes[j].capacity then |data| else s.pipes[j].capacity);
    case Close(_) =>
      a := Shut;
  }

  /** No state of a fault-free run is stuck before the reader returns. */
  lemma CanMove(script: seq<Op>, limit: nat, s: State) returns (a: Action)
    requires CleanInv(script, limit, s) && !s.phase.Returned?
    ensures a.Clean() && Enabled(s, a)
  {
    if s.phase.Reading? {
      var i := s.phase.ready[0];
      assert Pollable(s, i);
      a := if s.pipes[i].buffer == [] then Eof else Take(1);
    } else if AllDone(s) {
      a := Leave;
    } else if NothingPollable(s) {
      a := SourceCanMove(script, limit, s);
    } else {
      var i :| 0 <= i < |s.slots| && Pollable(s, i);
      a := Poll([i]);
    }
    if s.script != [] {
      assert s.script[0].pipe in OpenPipes(s.pipes);
    }
  }

  lemma NoDeadlock(script: seq<Op>, limit: nat, capacities: seq<nat>, acts: seq<Action>)
    requires LegalSource(script, capacities)
    requires ClosesAll(script, OpenPipes(Initial(script, capacities).pipes))
    requires Runs(limit, Initial(script, capacities), acts) && AllClean(acts)
    ensures var s := After(limit, Initial(script, capacities), acts);
            s.phase.Returned? || exists a: Action :: a.Clean() && Enabled(s, a)
  {
    InitialInv(script, limit, capacities);
    CleanRunKeepsInv(script, limit, Initial(script, capacities), acts);
    var s := After(limit, Initial(script, capacities), acts);
    if !s.phase.Returned? {
      var a := CanMove(script, limit, s);
    }
  }

  // ----- termination

  function NotDone(slot: Slot): nat { if slot.done then 0 else 1 }

  function Remaining(s: State): nat { SumOf(NotDone, s.slots) }

  /** Bytes still to be moved and pipes still to be finished, with a unit for the poll that must
      precede the next read. */
  function Measure(s: State): nat {
    if s.phase.Returned? then 0
    else
      1 + 2 * (2 * (ScriptBytes(s.script) + |s.script|) + Buffered(s) + Remaining(s))
      + (if s.phase.Polling? then 1 else 0)
  }

  lemma PushLowersMeasure(limit: nat, s: State, k: nat)
    requires Enabled(s, Push(k))
    ensures Measure(Next(limit, s, Push(k))) < Measure(s)
  {
    var t := Next(limit, s, Push(k));
    var Write(i, data) := s.script[0];
    assert s.script == [s.script[0]] + s.script[1..];
    WrittenHead(s.script[0], s.script[1..], i);
    WrittenHead(Write(i, data[k..]), s.script[1..], i);
    SumOfUpdate(BufferedBytes, s.pipes, i, t.pipes[i]);
  }

  lemma ShutLowersMeasure(limit: nat, s: State)
    requires Enabled(s, Shut)
    ensures Measure(Next(limit, s, Shut)) < Measure(s)
  {
    var t := Next(limit, s, Shut);
    assert s.script == [s.script[0]] + s.script[1..];
    WrittenHead(s.script[0], s.script[1..], 0);
    SumOfUpdate(BufferedBytes, s.pipes, s.script[0].pipe, t.pipes[s.script[0].pipe]);
  }

  lemma ReadLowersMeasure(limit: nat, s: State, a: Action)
    requires Enabled(s, a) && (a.Take? || a.Eof? || a.Fail?) && Pollable(s, s.phase.ready[0])
    ensures Measure(Next(limit, s, a)) < Measure(s)
  {
    var t := Next(limit, s, a);
    var i := s.phase.ready[0];
    if !t.phase.Returned? {
      SumOfUpdate(BufferedBytes, s.pipes, i, t.pipes[i]);
      SumOfUpdate(NotDone, s.slots, i, t.slots[i]);
    }
  }

  lemma {:induction false} StepLowersMeasure(script: seq<Op>, limit: nat, s: State, a: Action)
    requires Inv(script, limit, s) && Enabled(s, a)
    ensures Measure(Next(limit, s, a)) < Measure(s)
  {
    match a
    case Push(k) => PushLowersMeasure(limit, s, k);
    case Shut => ShutLowersMeasure(limit, s);
    case Take(k) => ReadLowersMeasure(limit, s, a);
    case Eof => ReadLowersMeasure(limit, s, a);
    case Fail => ReadLowersMeasure(limit, s, a);
    case Poll(_) =>
    case Leave =>
    case Timeout =>
    case PollError =>
  }

  /** No run is longer than the work there is, so every run that cannot be extended has returned. */
  lemma {:induction false} RunsAreBounded(script: seq<Op>, limit: nat, s: State, acts: seq<Action>)
    requires Inv(script, limit, s) && Runs(limit, s, acts)
    ensures |acts| + Measure(After(limit, s, acts)) <= Measure(s)
    decreases |acts|
  {
    if acts != [] {
      var front := acts[..|acts| - 1];
      RunsAreBounded(script, limit, s, front);
      RunKeepsInv(script, limit, s, front);
      StepLowersMeasure(script, limit, After(limit, s, front), acts[|acts| - 1]);
    }
  }

  // ----- the verdict and the result

  /** The result the reader owes its caller, read off the script alone. */
  function Expected(script: seq<Op>, limit: nat): Verdict {
    if ScriptBytes(script) <= limit then Complete else TooLarge
  }

  lemma {:induction false} AllClosedMeansFinished(script: seq<Op>, limit: nat, s: State)
    requires CleanInv(script, limit, s) && AllDone(s)
    ensures s.script == [] && Buffered(s) == 0
    ensures forall i :: 0 <= i < |s.slots| ==> s.slots[i].data == Written(script, i)
  {
    forall i | 0 <= i < |s.slots|
      ensures s.pipes[i].closed && BufferedBytes(s.pipes[i]) == 0 && s.slots[i].data == Written(script, i)
    {
      assert ChannelOk(script, s, i);
      ClosedMeansWritten(s.script, OpenPipes(s.pipes), i);
    }
    SumOfZero(BufferedBytes, s.pipes);
    assert OpenPipes(s.pipes) == {};
  }

  /** Whatever the interleaving, poll order and chunking, a fault-free run that returns gives the
      verdict the script alone determines, and on success every pipe holds exactly what was written. */
  lemma VerdictIsScheduleIndependent(script: seq<Op>, limit: nat,
        mimes: seq<Bytes>, capacities: seq<nat>, acts: seq<Action>)
    requires |mimes| == |capacities| && LegalSource(script, capacities)
    requires ClosesAll(script, OpenPipes(Initial(script, capacities).pipes))
    requires Runs(limit, Initial(script, capacities), acts) && AllClean(acts)
    ensures |After(limit, Initial(script, capacities), acts).slots| == |mimes|
    ensures var s := After(limit, Initial(script, capacities), acts);
            s.phase.Returned? ==>
              && s.phase.verdict == Expected(script, limit)
              && (s.phase.verdict == Complete ==>
                    Collect(mimes, SlotData(s.slots)) == Collect(mimes, WrittenPerPipe(script, |mimes|)))
  {
    var s0 := Initial(script, capacities);
    InitialInv(script, limit, capacities);
    CleanRunKeepsInv(script, limit, s0, acts);
    SlotCountKept(limit, s0, acts);
    var s := After(limit, s0, acts);
    if s.phase == Returned(Complete) {
      AllClosedMeansFinished(script, limit, s);
      assert SlotData(s.slots) == WrittenPerPipe(script, |mimes|);
    }
  }

  lemma {:induction false} CollectAppend(mimes: seq<Bytes>, datas: seq<Bytes>, mime: Bytes, data: Bytes)
    requires |mimes| == |datas|
    ensures Collect(mimes + [mime], datas + [data]) ==
            Collect(mimes, datas) + (if data == [] then [] else [Payload(mime, data)])
  {
    if mimes == [] {
      assert [mime][1..] == [] && [data][1..] == [];
      assert mimes + [mime] == [mime] && datas + [data] == [data];
    } else {
      assert (mimes + [mime])[1..] == mimes[1..] + [mime] && (datas + [data])[1..] == datas[1..] + [data];
      CollectAppend(mimes[1..], datas[1..], mime, data);
    }
  }

  /** The pipes that delivered something, in input order. */
  function Places(datas: seq<Bytes>): seq<nat> {
    if datas == [] then []
    else Places(datas[..|datas| - 1]) + (if datas[|datas| - 1] == [] then [] else [|datas| - 1])
  }

  lemma {:induction false} PlacesAreNonEmpty(datas: seq<Bytes>)
    ensures forall i, j :: 0 <= i < j < |Places(datas)| ==> Places(datas)[i] < Places(datas)[j]
    ensures forall i: nat :: i in Places(datas) <==> i < |datas| && datas[i] != []
  {
    if datas != [] {
      var n := |datas| - 1;
      PlacesAreNonEmpty(datas[..n]);
      forall k | 0 <= k < |Places(datas[..n])| ensures Places(datas[..n])[k] < n {
        assert Places(datas[..n])[k] in Places(datas[..n]);
      }
      forall i: nat ensures i in Places(datas) <==> i < |datas| && datas[i] != [] {
        assert i in Places(datas[..n]) <==> i < n && datas[..n][i] != [];
      }
    }
  }

  /** The result at `k` comes from the `k`th of those pipes. */
  predicate ComesFrom(mimes: seq<Bytes>, datas: seq<Bytes>, k: nat)
    requires |mimes| == |datas|
  {
    k < |Places(datas)| && k < |Collect(mimes, datas)| && Places(datas)[k] < |mimes|
    && Collect(mimes, datas)[k] == Payload(mimes[Places(datas)[k]], datas[Places(datas)[k]])
  }

  lemma {:induction false} CollectedFromPlaces(mimes: seq<Bytes>, datas: seq<Bytes>)
    requires |mimes| == |datas|
    ensures |Collect(mimes, datas)| == |Places(datas)|
    ensures forall k :: 0 <= k < |Places(datas)| ==> ComesFrom(mimes, datas, k)
    decreases |mimes|
  {
    if mimes != [] {
      var n := |mimes| - 1;
      CollectedFromPlaces(mimes[..n], datas[..n]);
      CollectAppend(mimes[..n], datas[..n], mimes[n], datas[n]);
      assert mimes == mimes[..n] + [mimes[n]] && datas == datas[..n] + [datas[n]];
      forall k | 0 <= k < |Places(datas)| ensures ComesFrom(mimes, datas, k) {
        assert k < |Places(datas[..n])| ==> ComesFrom(mimes[..n], datas[..n], k);
      }
    }
  }

  /** What a list of results contains: exactly the pipes that delivered something, in input order. */
  lemma CollectsNonEmptyInOrder(mimes: seq<Bytes>, datas: seq<Bytes>)
    requires |mimes| == |datas|
    ensures forall i, j :: 0 <= i < j < |Places(datas)| ==> Places(datas)[i] < Places(datas)[j]
    ensures forall i: nat :: i in Places(datas) <==> i < |datas| && datas[i] != []
    ensures |Collect(mimes, datas)| == |Places(datas)|
    ensures forall k :: 0 <= k < |Places(datas)| ==> ComesFrom(mimes, datas, k)
  {
    PlacesAreNonEmpty(datas);
    CollectedFromPlaces(mimes, datas);
  }

  lemma {:induction false} SlotCountKept(limit: nat, s: State, acts: seq<Action>)
    requires Runs(limit, s, acts)
    ensures |After(limit, s, acts).slots| == |s.slots|
    decreases |acts|
  {
    if acts != [] {
      SlotCountKept(limit, s, acts[..|acts| - 1]);
    }
  }

  /** Every fault-free run extends to one that returns. */
  lemma {:induction false} EveryRunCanReturn(script: seq<Op>, limit: nat, s: State, acts: seq<Action>)
      returns (more: seq<Action>)
    requires CleanInv(script, limit, s) && Runs(limit, s, acts) && AllClean(acts)
    ensures acts <= more && Runs(limit, s, more) && AllClean(more) && After(limit, s, more).phase.Returned?
    decreases Measure(After(limit, s, acts))
  {
    var t := After(limit, s, acts);
    CleanRunKeepsInv(script, limit, s, acts);
    if t.phase.Returned? {
      more := acts;
    } else {
      var a := CanMove(script, limit, t);
      var longer := acts + [a];
      assert longer[..|longer| - 1] == acts;
      StepLowersMeasure(script, limit, t, a);
      more := EveryRunCanReturn(script, limit, s, longer);
    }
  }

  /** With faults too, a successful result holds a prefix of what was written to each pipe, and all
      of it unless reading that pipe failed; the cap is never exceeded. */
  lemma FaultyResultIsPrefix(script: seq<Op>, limit: nat, capacities: seq<nat>, acts: seq<Action>, i: nat)
    requires LegalSource(script, capacities)
    requires Runs(limit, Initial(script, capacities), acts)
    requires i < |capacities|
    ensures var s := After(limit, Initial(script, capacities), acts);
            && |s.slots| == |capacities|
            && s.slots[i].data <= Written(script, i)
            && s.total == Held(s) <= limit
            && (s.phase == Returned(Complete) && i !in s.failed ==> s.slots[i].data == Written(script, i))
  {
    var s0 := Initial(script, capacities);
    InitialInv(script, limit, capacities);
    RunKeepsInv(script, limit, s0, acts);
    SlotCountKept(limit, s0, acts);
    var s := After(limit, s0, acts);
    assert ChannelOk(script, s, i);
    if s.phase == Returned(Complete) && i !in s.failed {
      ClosedMeansWritten(s.script, OpenPipes(s.pipes), i);
    }
  }

  // ----- why the reader polls all pipes

  /** A reader that drains the first unfinished pipe to its end before it touches any other. */
  predicate Sequential(s: State, a: Action) {
    a.Poll? ==> |a.ready| == 1 && forall i :: 0 <= i < a.ready[0] < |s.slots| ==> s.slots[i].done
  }

  predicate SequentialRun(limit: nat, s: State, acts: seq<Action>)
    requires Runs(limit, s, acts)
    decreases |acts|
  {
    acts == [] ||
    (SequentialRun(limit, s, acts[..|acts| - 1]) && Sequential(After(limit, s, acts[..|acts| - 1]), acts[|acts| - 1]))
  }

  /** A source that keeps its first pipe open while it fills the second. */
  function HoldsFirstOpen(first: Bytes, second: Bytes): seq<Op> {
    [Write(0, first), Write(1, second), Close(1), Close(0)]
  }

  predicate StillInFirst(first: Bytes, second: Bytes, s: State) {
    && |s.slots| == 2 == |s.pipes| && !s.slots[0].done && !s.pipes[0].closed && s.slots[1].data == []
    && (s.phase == Polling || s.phase == Reading([0]))
    && |s.script| >= 3 && s.script[|s.script| - 2..] == [Close(1), Close(0)]
    && (|s.script| == 4 ==> s.script[0].Write? && s.script[0].pipe == 0 && s.script[1] == Write(1, second))
    && (|s.script| == 3 ==> s.script[0].Write? && s.script[0].pipe == 1)
    && |s.script| <= 4
  }

  lemma SequentialPushStays(limit: nat, first: Bytes, second: Bytes, s: State, k: nat)
    requires StillInFirst(first, second, s) && |s.slots| == 2 && Enabled(s, Push(k))
    requires Conserves(HoldsFirstOpen(first, second), s, 1) && s.pipes[1].capacity < |second|
    ensures StillInFirst(first, second, Next(limit, s, Push(k)))
  {
    var t := Next(limit, s, Push(k));
    var tail := s.script[|s.script| - 2..];
    if |s.script| == 3 {
      SecondStillToCome(first, second, s);
      assert t.script[1..] == tail;
    } else if k == |s.script[0].data| {
      assert t.script[1..] == tail;
    } else {
      assert t.script[2..] == tail;
    }
  }

  lemma SequentialTakeStays(limit: nat, first: Bytes, second: Bytes, s: State, k: nat)
    requires StillInFirst(first, second, s) && |s.slots| == 2 && Enabled(s, Take(k))
    requires Conserves(HoldsFirstOpen(first, second), s, 0) && |first| <= limit && s.total == Held(s)
    ensures StillInFirst(first, second, Next(limit, s, Take(k)))
  {
    SumOfTwo(s);
    WrittenOfHolds(first, second);
    assert |s.slots[0].data| + |s.pipes[0].buffer| <= |first|;
  }

  lemma {:induction false} SequentialStays(limit: nat, first: Bytes, second: Bytes, s: State, a: Action)
    requires Inv(HoldsFirstOpen(first, second), limit, s) && StillInFirst(first, second, s)
    requires |s.slots| == 2 && s.pipes[1].capacity < |second| && |first| <= limit
    requires Enabled(s, a) && a.Clean() && Sequential(s, a)
    ensures StillInFirst(first, second, Next(limit, s, a))
  {
    assert ChannelOk(HoldsFirstOpen(first, second), s, 0) && ChannelOk(HoldsFirstOpen(first, second), s, 1);
    match a
    case Push(k) => SequentialPushStays(limit, first, second, s, k);
    case Take(k) => SequentialTakeStays(limit, first, second, s, k);
    case Poll(ready) =>
      assert Pollable(s, ready[0]);
      assert ready == [0];
    case Leave =>
    case Eof =>
    case Shut =>
  }

  /** While the second payload is being written, what is left of it and what sits in its pipe make
      up the whole. */
  lemma SecondStillToCome(first: Bytes, second: Bytes, s: State)
    requires StillInFirst(first, second, s) && |s.script| == 3
    requires Conserves(HoldsFirstOpen(first, second), s, 1)
    ensures |s.pipes[1].buffer| + |s.script[0].data| == |second|
  {
    WrittenOfHolds(first, second);
    assert s.script[1..] == [Close(1)] + [Close(0)];
    WrittenHead(Close(1), [Close(0)], 1);
    WrittenHead(Close(0), [], 1);
    assert [Close(0)] + [] == [Close(0)];
    assert s.script == [s.script[0]] + s.script[1..];
    WrittenHead(s.script[0], s.script[1..], 1);
  }

  lemma WrittenOfHolds(first: Bytes, second: Bytes)
    ensures Written(HoldsFirstOpen(first, second), 0) == first
    ensures Written(HoldsFirstOpen(first, second), 1) == second
  {
    var script := HoldsFirstOpen(first, second);
    forall i: nat | i < 2 ensures Written(script, i) == if i == 0 then first else second {
      assert script[1..] == [Write(1, second), Close(1), Close(0)];
      assert script[1..][1..] == [Close(1)] + [Close(0)];
      WrittenHead(Close(1), [Close(0)], i);
      WrittenHead(Close(0), [], i);
      assert [Close(0)] + [] == [Close(0)];
    }
  }

  lemma SumOfTwo(s: State)
    requires |s.slots| == 2
    ensures Held(s) == |s.slots[0].data| + |s.slots[1].data|
  {
    assert SumOf(HeldBytes, s.slots[1..]) == |s.slots[1].data|;
  }

  /** The sequential reader never finishes on such a source once the second payload does not fit its
      pipe: its runs are bounded, and none of them ends in a return. */
  lemma {:induction false} SequentialReaderDeadlocks(limit: nat,
        first: Bytes, second: Bytes, capacities: seq<nat>, acts: seq<Action>)
    requires |capacities| == 2 && 0 < capacities[0] && 0 < capacities[1] < |second| && |first| <= limit
    requires Runs(limit, Initial(HoldsFirstOpen(first, second), capacities), acts) && AllClean(acts)
    requires SequentialRun(limit, Initial(HoldsFirstOpen(first, second), capacities), acts)
    ensures LegalSource(HoldsFirstOpen(first, second), capacities)
    ensures var s0 := Initial(HoldsFirstOpen(first, second), capacities);
            !After(limit, s0, acts).phase.Returned? && |acts| <= Measure(s0)
    decreases |acts|
  {
    var script := HoldsFirstOpen(first, second);
    var s0 := Initial(script, capacities);
    HoldsIsLegal(first, second, capacities);
    InitialInv(script, limit, capacities);
    RunsAreBounded(script, limit, s0, acts);
    SequentialRunStays(limit, first, second, capacities, acts);
  }

  lemma HoldsIsLegal(first: Bytes, second: Bytes, capacities: seq<nat>)
    requires |capacities| == 2 && 0 < capacities[0] && 0 < capacities[1]
    ensures LegalSource(HoldsFirstOpen(first, second), capacities)
    ensures ClosesAll(HoldsFirstOpen(first, second),
              OpenPipes(Initial(HoldsFirstOpen(first, second), capacities).pipes))
  {
    var script := HoldsFirstOpen(first, second);
    assert OpenPipes(Initial(script, capacities).pipes) == {0, 1};
    assert script[1..] == [Write(1, second), Close(1), Close(0)];
    assert script[1..][1..] == [Close(1), Close(0)];
    assert {0, 1} - {1} == {0};
    assert Legal([Close(0)], {0});
    assert [Close(1), Close(0)][1..] == [Close(0)];
    assert Legal([Close(1), Close(0)], {0, 1});
    assert script[2] == Close(1) && script[3] == Close(0);
  }

  lemma {:induction false} SequentialRunStays(limit: nat,
        first: Bytes, second: Bytes, capacities: seq<nat>, acts: seq<Action>)
    requires |capacities| == 2 && 0 < capacities[0] && 0 < capacities[1] < |second| && |first| <= limit
    requires Runs(limit, Initial(HoldsFirstOpen(first, second), capacities), acts) && AllClean(acts)
    requires SequentialRun(limit, Initial(HoldsFirstOpen(first, second), capacities), acts)
    ensures var s := After(limit, Initial(HoldsFirstOpen(first, second), capacities), acts);
            StillInFirst(first, second, s) && s.pipes[1].capacity == capacities[1]
    decreases |acts|
  {
    var script := HoldsFirstOpen(first, second);
    var s0 := Initial(script, capacities);
    if acts != [] {
      var front := acts[..|acts| - 1];
      SequentialRunStays(limit, first, second, capacities, front);
      HoldsIsLegal(first, second, capacities);
      InitialInv(script, limit, capacities);
      RunKeepsInv(script, limit, s0, front);
      SequentialStays(limit, first, second, After(limit, s0, front), acts[|acts| - 1]);
    }
  }
}
