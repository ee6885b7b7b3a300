/** A restored entry comes back to the watcher as exactly what was stored. */
module Echo {
  import opened Prelude
  import opened Ordering
  import opened Drain
  import opened DrainTheorems
  import opened DrainReader
  import opened Payloads
  import opened HashInput
  import opened Restore
  import opened Watcher
  import Offers

  /** What every capture has in common: canonical, nothing empty, nothing skipped or marked, and
      within the cap. */
  ghost predicate Capturable(ps: seq<Payload>) {
    && ps != [] && StrictByMime(ps) && PayloadBytes(ps) <= MAX_PAYLOAD_BYTES
    && forall p :: p in ps ==> p.data != [] && !Offers.ShouldSkip(p.mime) && !Offers.IsHint(p.mime)
  }

  /** The names under which the watcher reads anything, of those Wayland can transmit. */
  predicate CanName(mime: Bytes) {
    NulFree(mime) && !Offers.ShouldSkip(mime) && !Offers.IsHint(mime)
  }

  /** So `HashInput.HashedUniquelyIff` speaks of what the watcher captures. */
  lemma CapturableIsStorable(ps: seq<Payload>)
    ensures Capturable(ps) && NulFreeMimes(ps) <==> ps != [] && Storable(CanName, Some(MAX_PAYLOAD_BYTES), ps)
    ensures NulFreeNames(CanName)
  {
    forall i | 0 <= i < |ps| ensures ps[i] in ps {
    }
  }

  // ----- captures are capturable

  function Length(b: Bytes): nat { |b| }

  lemma {:induction false} CollectMembers(mimes: seq<Bytes>, datas: seq<Bytes>)
    requires |mimes| == |datas|
    ensures forall p :: p in Collect(mimes, datas) ==> p.mime in mimes && p.data != []
    ensures PayloadBytes(Collect(mimes, datas)) == SumOf(Length, datas)
  {
    if mimes != [] {
      CollectMembers(mimes[1..], datas[1..]);
      if datas[0] != [] {
        assert Collect(mimes, datas)[1..] == Collect(mimes[1..], datas[1..]);
      } else {
        assert Collect(mimes, datas) == Collect(mimes[1..], datas[1..]);
      }
    }
  }

  lemma NormalizedCapturable(mimes: seq<Bytes>, datas: seq<Bytes>)
    requires |mimes| == |datas| && SumOf(Length, datas) <= MAX_PAYLOAD_BYTES && Collect(mimes, datas) != []
    requires forall m :: m in mimes ==> !Offers.ShouldSkip(m) && !Offers.IsHint(m)
    ensures Capturable(Normalize(Collect(mimes, datas)))
  {
    var raw := Collect(mimes, datas);
    CollectMembers(mimes, datas);
    NormalizeShrinks(raw);
    NormalizeIsCanonical(raw);
    forall p | p in Normalize(raw) ensures p.data != [] && !Offers.ShouldSkip(p.mime) && !Offers.IsHint(p.mime) {
      assert p in raw;
    }
  }

  lemma {:induction false} HeldIsLength(slots: seq<Slot>)
    ensures SumOf(Length, SlotData(slots)) == SumOf(HeldBytes, slots)
  {
    if slots != [] {
      HeldIsLength(slots[1..]);
      assert SlotData(slots)[1..] == SlotData(slots[1..]);
    }
  }

  /** Whatever the source, the schedule or the faults, what a finished read hands on is capturable. */
  lemma ReceivedIsCapturable(kernel: Kernel, mimes: seq<Bytes>)
    requires kernel.Valid() && kernel.limit == MAX_PAYLOAD_BYTES && |kernel.Now().slots| == |mimes|
    requires forall m :: m in mimes ==> !Offers.ShouldSkip(m) && !Offers.IsHint(m)
    ensures Received(kernel, mimes).Some? ==> Capturable(Received(kernel, mimes).value)
  {
    var datas := SlotData(kernel.Now().slots);
    HeldIsLength(kernel.Now().slots);
    if Received(kernel, mimes).Some? {
      NormalizedCapturable(mimes, datas);
    }
  }

  // ----- the echo's offer

  lemma {:induction false} FilterAll(f: Bytes -> bool, types: seq<Bytes>)
    requires forall m :: m in types ==> f(m)
    ensures Offers.Filter(f, types) == types
  {
    if types != [] {
      assert types[0] in types && forall m :: m in types[1..] ==> m in types;
      FilterAll(f, types[1..]);
    }
  }

  /** Just the stored types, in any order and with any repetition. */
  ghost predicate SameNames(types: seq<Bytes>, ps: seq<Payload>) {
    forall m :: m in types <==> m in Mimes(ps)
  }

  /** Since the last selection the compositor has created the offer and announced just the stored types
      for it, in any order and with any repetition, whatever it said of other offers in between. */
  ghost predicate Announces(steps: seq<Offers.Step>, id: nat, ps: seq<Payload>) {
    var types := Offers.TypesSinceCreated(Offers.Window(Offers.Events(steps)), id);
    types.Some? && SameNames(types.value, ps)
  }

  /** An announcement in one piece, in the order stored. */
  function Announcement(id: nat, ps: seq<Payload>): (events: seq<Offers.Step>) {
    if ps == [] then [Offers.Dispatch(Offers.DataOffer(id))]
    else Announcement(id, ps[..|ps| - 1]) + [Offers.Dispatch(Offers.Offer(id, ps[|ps| - 1].mime))]
  }

  lemma {:induction false} AnnouncementAnnounces(steps: seq<Offers.Step>, id: nat, ps: seq<Payload>)
    ensures Offers.TypesSinceCreated(Offers.Window(Offers.Events(steps + Announcement(id, ps))), id) == Some(Mimes(ps))
    decreases |ps|
  {
    if ps == [] {
      Offers.TypesStep(steps, Offers.DataOffer(id), id);
      assert Announcement(id, ps) == [Offers.Dispatch(Offers.DataOffer(id))] && Mimes(ps) == [];
    } else {
      var front, mime := ps[..|ps| - 1], ps[|ps| - 1].mime;
      var seen := steps + Announcement(id, front);
      AnnouncementAnnounces(steps, id, front);
      Offers.TypesStep(seen, Offers.Offer(id, mime), id);
      AnnouncementGrows(steps, id, ps);
    }
  }

  lemma AnnouncementGrows(steps: seq<Offers.Step>, id: nat, ps: seq<Payload>)
    requires ps != []
    ensures var front, mime := ps[..|ps| - 1], ps[|ps| - 1].mime;
            && steps + Announcement(id, ps)
                 == steps + Announcement(id, front) + [Offers.Dispatch(Offers.Offer(id, mime))]
            && Mimes(front) + [mime] == Mimes(ps)
  {
  }

  /** What is said of other offers, or said again of this one, does not matter. */
  lemma StillAnnounces(steps: seq<Offers.Step>, e: Offers.Event, id: nat, ps: seq<Payload>)
    requires Announces(steps, id, ps)
    requires match e
             case DataOffer(other) => other != id
             case Offer(other, mime) => other != id || mime in Mimes(ps)
             case Selection(_) => false
             case Finished => true
    ensures Announces(steps + [Offers.Dispatch(e)], id, ps)
  {
    Offers.TypesStep(steps, e, id);
  }

  /** The stored types, each once, are what is asked for. */
  ghost predicate Offered(mimes: seq<Bytes>, ps: seq<Payload>) {
    NoDuplicates(mimes) && SameNames(mimes, ps)
  }

  /** The stored types pass the filters whole. */
  lemma StoredTypesPass(mimes: seq<Bytes>, ps: seq<Payload>)
    requires Capturable(ps) && SameNames(mimes, ps)
    ensures Offers.Unskipped(mimes) == mimes && !Offers.IsSensitive(mimes) && mimes != []
  {
    forall m | m in mimes ensures Offers.Kept(m) && !Offers.IsHint(m) {
      var i :| 0 <= i < |ps| && Mimes(ps)[i] == m;
      assert ps[i] in ps;
    }
    FilterAll(Offers.Kept, mimes);
    forall i | 0 <= i < |mimes| ensures !Offers.IsHint(mimes[i]) {
      assert mimes[i] in mimes;
    }
    assert Mimes(ps)[0] in mimes;
  }

  /** Whatever the watcher has seen before, selecting the restored offer makes exactly its stored types
      ready, each once: nothing is filtered out. */
  lemma EchoIsReady(steps: seq<Offers.Step>, id: nat, ps: seq<Payload>) returns (mimes: seq<Bytes>)
    requires Capturable(ps) && Announces(steps, id, ps)
    ensures Offers.Run(steps + [Offers.Dispatch(Offers.Selection(Some(id)))]).ready
              == Some(Offers.PendingOffer(id, mimes))
    ensures Offered(mimes, ps)
  {
    var types := Offers.TypesSinceCreated(Offers.Window(Offers.Events(steps)), id).value;
    mimes := Offers.FirstOccurrences(types);
    Offers.FirstOccurrencesMembers(types);
    StoredTypesPass(mimes, ps);
    Offers.SelectionRefinesTrace(steps, Some(id));
  }

  // ----- the echo's script

  /** `order` names each of `n` pipes once. */
  predicate Covers(order: seq<nat>, n: nat) {
    NoDuplicates(order) && (forall i :: i in order ==> i < n) && (forall i :: 0 <= i < n ==> i in order)
  }

  /** What the restoring thread writes when the pipes for `mimes` are served in `order`. */
  function EchoScript(ps: seq<Payload>, mimes: seq<Bytes>, order: seq<nat>): seq<Op>
    requires forall i :: i in order ==> i < |mimes|
  {
    ServedScript(ps, UntilDone(Sends(mimes, order)))
  }

  /** The data stored under a name. */
  function DataOf(ps: seq<Payload>, mime: Bytes): Bytes {
    match FirstMatch(ps, mime)
    case Some(data) => data
    case None => []
  }

  /** The stored payloads in the order asked for. */
  function Asked(ps: seq<Payload>, mimes: seq<Bytes>): (qs: seq<Payload>)
    ensures |qs| == |mimes| && forall i :: 0 <= i < |mimes| ==> qs[i] == Payload(mimes[i], DataOf(ps, mimes[i]))
  {
    seq(|mimes|, i requires 0 <= i < |mimes| => Payload(mimes[i], DataOf(ps, mimes[i])))
  }

  function Datas(ps: seq<Payload>): (r: seq<Bytes>)
    ensures |r| == |ps| && forall i :: 0 <= i < |ps| ==> r[i] == ps[i].data
  {
    seq(|ps|, i requires 0 <= i < |ps| => ps[i].data)
  }

  lemma {:induction false} FirstMatchIsOwn(ps: seq<Payload>, i: nat)
    requires StrictByMime(ps) && i < |ps|
    ensures FirstMatch(ps, ps[i].mime) == Some(ps[i].data)
  {
    if i > 0 {
      assert ps[0].mime != ps[i].mime;
      FirstMatchIsOwn(ps[1..], i - 1);
    }
  }

  lemma OfferedIsMatched(ps: seq<Payload>, mimes: seq<Bytes>, i: nat)
    requires StrictByMime(ps) && SameNames(mimes, ps) && i < |mimes|
    ensures FirstMatch(ps, mimes[i]).Some? && Payload(mimes[i], DataOf(ps, mimes[i])) in ps
  {
    assert mimes[i] in mimes;
    var k :| 0 <= k < |ps| && Mimes(ps)[k] == mimes[i];
    FirstMatchIsOwn(ps, k);
    assert ps[k] == Payload(mimes[i], DataOf(ps, mimes[i]));
  }

  /** Asking for the stored types gets the stored payloads, rearranged. */
  lemma AskedIsStored(ps: seq<Payload>, mimes: seq<Bytes>)
    requires StrictByMime(ps) && Offered(mimes, ps)
    ensures multiset(Asked(ps, mimes)) == multiset(ps) && |mimes| == |ps|
  {
    var qs := Asked(ps, mimes);
    forall q | q in qs ensures q in ps {
      var i :| 0 <= i < |mimes| && qs[i] == q;
      OfferedIsMatched(ps, mimes, i);
    }
    forall p | p in ps ensures p in qs {
      var k :| 0 <= k < |ps| && ps[k] == p;
      FirstMatchIsOwn(ps, k);
      assert Mimes(ps)[k] in mimes;
      var i :| 0 <= i < |mimes| && mimes[i] == p.mime;
      assert qs[i] == p;
    }
    SameMembersSameMultiset(qs, ps);
    PermutationFacts(qs, ps);
  }

  lemma EchoScriptStep(ps: seq<Payload>, mimes: seq<Bytes>, order: seq<nat>)
    requires StrictByMime(ps) && SameNames(mimes, ps) && order != [] && forall i :: i in order ==> i < |mimes|
    ensures order[0] < |mimes| && forall i :: i in order[1..] ==> i < |mimes|
    ensures EchoScript(ps, mimes, order) ==
            [Write(order[0], DataOf(ps, mimes[order[0]])), Close(order[0])] + EchoScript(ps, mimes, order[1..])
  {
    assert order[0] in order && forall i :: i in order[1..] ==> i in order;
    SendsAreServed(mimes, order);
    SendsAreServed(mimes, order[1..]);
    OfferedIsMatched(ps, mimes, order[0]);
    var s := Sends(mimes, order);
    assert s[0] == Send(mimes[order[0]], order[0]) && s[1..] == Sends(mimes, order[1..]);
  }

  lemma WrittenTwoOps(i: nat, data: Bytes, rest: seq<Op>, j: nat)
    ensures Written([Write(i, data), Close(i)] + rest, j) == (if i == j then data else []) + Written(rest, j)
  {
    assert [Write(i, data), Close(i)] + rest == [Write(i, data)] + ([Close(i)] + rest);
    WrittenHead(Write(i, data), [Close(i)] + rest, j);
    WrittenHead(Close(i), rest, j);
    assert [] + Written(rest, j) == Written(rest, j);
  }

  lemma {:induction false} EchoWrites(ps: seq<Payload>, mimes: seq<Bytes>, order: seq<nat>, j: nat)
    requires StrictByMime(ps) && SameNames(mimes, ps) && NoDuplicates(order)
    requires (forall i :: i in order ==> i < |mimes|) && j < |mimes|
    ensures Written(EchoScript(ps, mimes, order), j) == if j in order then DataOf(ps, mimes[j]) else []
  {
    if order != [] {
      EchoScriptStep(ps, mimes, order);
      EchoWrites(ps, mimes, order[1..], j);
      WrittenTwoOps(order[0], DataOf(ps, mimes[order[0]]), EchoScript(ps, mimes, order[1..]), j);
      assert order[0] !in order[1..];
    }
  }

  lemma LegalTwoOps(i: nat, data: Bytes, rest: seq<Op>, open: set<nat>)
    requires i in open && Legal(rest, open - {i})
    ensures Legal([Write(i, data), Close(i)] + rest, open)
  {
    var script := [Write(i, data), Close(i)] + rest;
    assert script[1..] == [Close(i)] + rest && script[1..][1..] == rest;
    assert Legal(script[1..], open);
  }

  lemma {:induction false} EchoIsLegal(ps: seq<Payload>, mimes: seq<Bytes>, order: seq<nat>, open: set<nat>)
    requires StrictByMime(ps) && SameNames(mimes, ps) && NoDuplicates(order)
    requires forall i :: i in order ==> i < |mimes| && i in open
    ensures Legal(EchoScript(ps, mimes, order), open)
  {
    if order != [] {
      EchoScriptStep(ps, mimes, order);
      assert order[0] in order && order[0] !in order[1..];
      EchoIsLegal(ps, mimes, order[1..], open - {order[0]});
      LegalTwoOps(order[0], DataOf(ps, mimes[order[0]]), EchoScript(ps, mimes, order[1..]), open);
    }
  }

  lemma {:induction false} EchoCloses(ps: seq<Payload>, mimes: seq<Bytes>, order: seq<nat>, i: nat)
    requires StrictByMime(ps) && SameNames(mimes, ps) && (forall j :: j in order ==> j < |mimes|) && i in order
    ensures Close(i) in EchoScript(ps, mimes, order)
  {
    EchoScriptStep(ps, mimes, order);
    if order[0] == i {
      assert EchoScript(ps, mimes, order)[1] == Close(i);
    } else {
      EchoCloses(ps, mimes, order[1..], i);
    }
  }

  /** Every byte written goes to one of the pipes. */
  lemma {:induction false} BytesPerPipe(script: seq<Op>, n: nat, open: set<nat>)
    requires Legal(script, open) && forall i :: i in open ==> i < n
    ensures SumOf(Length, WrittenPerPipe(script, n)) == ScriptBytes(script)
  {
    if script == [] {
      SumOfZero(Length, WrittenPerPipe(script, n));
    } else {
      var op, rest := script[0], script[1..];
      BytesPerPipe(rest, n, if op.Close? then open - {op.pipe} else open);
      var before, after := WrittenPerPipe(rest, n), WrittenPerPipe(script, n);
      forall i | 0 <= i < n ensures after[i] == if op.Write? && op.pipe == i then op.data + before[i] else before[i] {
        assert script == [op] + rest;
        WrittenHead(op, rest, i);
        assert [] + before[i] == before[i];
      }
      if op.Write? {
        var x := op.data + before[op.pipe];
        assert after == before[op.pipe := x];
        SumOfUpdate(Length, before, op.pipe, x);
      } else {
        assert after == before;
      }
    }
  }

  lemma {:induction false} CollectOwn(qs: seq<Payload>)
    requires forall q :: q in qs ==> q.data != []
    ensures Collect(Mimes(qs), Datas(qs)) == qs
    ensures SumOf(Length, Datas(qs)) == PayloadBytes(qs)
  {
    if qs != [] {
      CollectOwn(qs[1..]);
      assert qs[0] in qs;
      assert Mimes(qs)[1..] == Mimes(qs[1..]) && Datas(qs)[1..] == Datas(qs[1..]);
      assert qs == [qs[0]] + qs[1..];
    }
  }

  lemma {:induction false} BytesOfPermutation(a: seq<Payload>, b: seq<Payload>)
    requires multiset(a) == multiset(b)
    ensures PayloadBytes(a) == PayloadBytes(b)
    decreases |a|
  {
    PermutationFacts(a, b);
    if a != [] {
      assert a[0] in b;
      var k :| 0 <= k < |b| && b[k] == a[0];
      TailMultiset(a);
      WithoutAt(b, k);
      assert multiset(b[..k] + b[k + 1..]) == multiset(b) - multiset{b[k]};
      BytesOfPermutation(a[1..], b[..k] + b[k + 1..]);
      BytesWithout(b, k);
    }
  }

  lemma BytesWithout(b: seq<Payload>, k: nat)
    requires k < |b|
    ensures PayloadBytes(b) == |b[k].data| + PayloadBytes(b[..k] + b[k + 1..])
  {
    BytesAppend(b[..k], b[k + 1..]);
    BytesAppend(b[..k], b[k..]);
    assert b == b[..k] + b[k..] && b[k..][1..] == b[k + 1..];
  }

  predicate Positive(capacities: seq<nat>) {
    forall i :: 0 <= i < |capacities| ==> 0 < capacities[i]
  }

  lemma EchoSourceIsLegal(ps: seq<Payload>, mimes: seq<Bytes>, order: seq<nat>, capacities: seq<nat>)
    requires Capturable(ps) && Offered(mimes, ps) && Covers(order, |mimes|)
               && |capacities| == |mimes| && Positive(capacities)
    ensures LegalSource(EchoScript(ps, mimes, order), capacities)
    ensures ClosesAll(EchoScript(ps, mimes, order), OpenPipes(Initial(EchoScript(ps, mimes, order), capacities).pipes))
  {
    var open := OpenPipes(Initial(EchoScript(ps, mimes, order), capacities).pipes);
    EchoIsLegal(ps, mimes, order, open);
    forall i | i in open ensures Close(i) in EchoScript(ps, mimes, order) {
      EchoCloses(ps, mimes, order, i);
    }
  }

  /** Every pipe gets the data stored under the name it was asked for. */
  lemma EchoWritesOwn(ps: seq<Payload>, mimes: seq<Bytes>, order: seq<nat>)
    requires Capturable(ps) && Offered(mimes, ps) && Covers(order, |mimes|)
    ensures WrittenPerPipe(EchoScript(ps, mimes, order), |mimes|) == Datas(Asked(ps, mimes))
  {
    var script := EchoScript(ps, mimes, order);
    forall j | 0 <= j < |mimes| ensures Written(script, j) == DataOf(ps, mimes[j]) {
      EchoWrites(ps, mimes, order, j);
    }
    assert WrittenPerPipe(script, |mimes|) == Datas(Asked(ps, mimes));
  }

  /** Whole data in any order of the types is the stored payloads, once normalised. */
  lemma AskedIsCollected(ps: seq<Payload>, mimes: seq<Bytes>)
    requires Capturable(ps) && Offered(mimes, ps)
    ensures Collect(mimes, Datas(Asked(ps, mimes))) == Asked(ps, mimes) != []
    ensures Normalize(Asked(ps, mimes)) == ps
    ensures SumOf(Length, Datas(Asked(ps, mimes))) == PayloadBytes(ps)
  {
    var qs := Asked(ps, mimes);
    AskedIsStored(ps, mimes);
    PermutationFacts(qs, ps);
    assert Mimes(qs) == mimes;
    CollectOwn(qs);
    BytesOfPermutation(qs, ps);
    NormalizeDependsOnSet(qs, ps);
    NormalizeFixesStrict(ps);
  }

  lemma EchoFitsTheCap(ps: seq<Payload>, mimes: seq<Bytes>, order: seq<nat>)
    requires Capturable(ps) && Offered(mimes, ps) && Covers(order, |mimes|)
    ensures ScriptBytes(EchoScript(ps, mimes, order)) == PayloadBytes(ps) <= MAX_PAYLOAD_BYTES
  {
    var open := set i | i in order;
    EchoIsLegal(ps, mimes, order, open);
    BytesPerPipe(EchoScript(ps, mimes, order), |mimes|, open);
    EchoWritesOwn(ps, mimes, order);
    AskedIsCollected(ps, mimes);
  }

  /** Reading our own offer back yields exactly the payloads that were stored, in whatever order the types
      are asked for and the requests served. */
  lemma EchoIsCaptured(ps: seq<Payload>, mimes: seq<Bytes>, order: seq<nat>)
    requires Capturable(ps) && Offered(mimes, ps) && Covers(order, |mimes|)
    ensures Captured(mimes, EchoScript(ps, mimes, order)) == Some(ps)
  {
    EchoWritesOwn(ps, mimes, order);
    EchoFitsTheCap(ps, mimes, order);
    AskedIsCollected(ps, mimes);
  }

  /** The same for every schedule: any fault-free run of the pipes that returns has succeeded, and its
      canonical result is the stored payloads, hence so is its hash. */
  lemma EchoUnderAnySchedule(env: Env, ps: seq<Payload>, mimes: seq<Bytes>, order: seq<nat>,
                             capacities: seq<nat>, acts: seq<Action>)
    requires Capturable(ps) && Offered(mimes, ps) && Covers(order, |mimes|)
               && |capacities| == |mimes| && Positive(capacities)
    requires Runs(MAX_PAYLOAD_BYTES, Initial(EchoScript(ps, mimes, order), capacities), acts) && AllClean(acts)
    requires After(MAX_PAYLOAD_BYTES, Initial(EchoScript(ps, mimes, order), capacities), acts).phase.Returned?
    ensures var s := After(MAX_PAYLOAD_BYTES, Initial(EchoScript(ps, mimes, order), capacities), acts);
            && s.phase.verdict == Complete && |s.slots| == |mimes|
            && Normalize(Collect(mimes, SlotData(s.slots))) == ps
            && HashOf(env, Normalize(Collect(mimes, SlotData(s.slots)))) == HashOf(env, ps)
  {
    EchoSourceIsLegal(ps, mimes, order, capacities);
    EchoWritesOwn(ps, mimes, order);
    EchoFitsTheCap(ps, mimes, order);
    VerdictIsScheduleIndependent(EchoScript(ps, mimes, order), MAX_PAYLOAD_BYTES, mimes, capacities, acts);
    AskedIsCollected(ps, mimes);
  }

  // ----- when something goes wrong on the way

  /** A source that may have failed part way through some of its writes. */
  predicate WritesBeginnings(script: seq<Op>, qs: seq<Payload>) {
    forall i :: 0 <= i < |qs| ==> Written(script, i) <= qs[i].data
  }

  /** What is collected, pipe by pipe. */
  lemma {:induction false} CollectedFrom(mimes: seq<Bytes>, datas: seq<Bytes>, p: Payload)
    requires |mimes| == |datas|
    ensures p in Collect(mimes, datas)
            <==> p.data != [] && exists i :: 0 <= i < |mimes| && p == Payload(mimes[i], datas[i])
  {
    if mimes != [] {
      CollectedFrom(mimes[1..], datas[1..], p);
      if i :| 0 <= i < |mimes[1..]| && p == Payload(mimes[1..][i], datas[1..][i]) {
        assert p == Payload(mimes[i + 1], datas[i + 1]);
      }
      if i :| 0 < i < |mimes| && p == Payload(mimes[i], datas[i]) {
        assert p == Payload(mimes[1..][i - 1], datas[1..][i - 1]);
      }
      assert p in Collect(mimes, datas) <==>
             (datas[0] != [] && p == Payload(mimes[0], datas[0])) || p in Collect(mimes[1..], datas[1..]);
    }
  }

  /** Normalising payloads with different names keeps them all. */
  lemma NormalizeKeepsDistinct(qs: seq<Payload>)
    requires forall p, q :: p in qs && q in qs && p.mime == q.mime ==> p == q
    ensures forall p :: p in Normalize(qs) <==> p in qs
  {
    NormalizeIsCanonical(qs);
    forall p | p in qs ensures p in Normalize(qs) {
      assert Covered(Normalize(qs), p);
      var q := CoverOf(Normalize(qs), p);
    }
  }

  /** What was delivered counts as what was stored exactly when it is all of it. */
  lemma CapturedWholeIff(ps: seq<Payload>, mimes: seq<Bytes>, datas: seq<Bytes>)
    requires Capturable(ps) && Offered(mimes, ps) && |datas| == |mimes|
    ensures Normalize(Collect(mimes, datas)) == ps <==> datas == Datas(Asked(ps, mimes))
  {
    var got := Collect(mimes, datas);
    forall p ensures p in got <==> p.data != [] && exists i :: 0 <= i < |mimes| && p == Payload(mimes[i], datas[i]) {
      CollectedFrom(mimes, datas, p);
    }
    NormalizeKeepsDistinct(got);
    if Normalize(got) == ps {
      forall i | 0 <= i < |mimes| ensures datas[i] == DataOf(ps, mimes[i]) {
        OfferedIsMatched(ps, mimes, i);
        var p := Payload(mimes[i], DataOf(ps, mimes[i]));
        assert p in got;
      }
      assert datas == Datas(Asked(ps, mimes));
    } else if datas == Datas(Asked(ps, mimes)) {
      AskedIsCollected(ps, mimes);
    }
  }

  /** With failed reads or failed writes, an echo that is read to the end holds the beginning of each
      stored payload; it is captured as what was stored exactly when no payload was cut short, as none is
      if every write was whole and no read failed.  Any other is a capture of other payloads. */
  lemma FaultyEchoIff(ps: seq<Payload>, mimes: seq<Bytes>, script: seq<Op>, capacities: seq<nat>, acts: seq<Action>)
    requires Capturable(ps) && Offered(mimes, ps) && WritesBeginnings(script, Asked(ps, mimes))
    requires |capacities| == |mimes| && LegalSource(script, capacities)
    requires Runs(MAX_PAYLOAD_BYTES, Initial(script, capacities), acts)
    requires After(MAX_PAYLOAD_BYTES, Initial(script, capacities), acts).phase == Returned(Complete)
    ensures var s, qs := After(MAX_PAYLOAD_BYTES, Initial(script, capacities), acts), Asked(ps, mimes);
            && |s.slots| == |mimes| && (forall i :: 0 <= i < |qs| ==> s.slots[i].data <= qs[i].data)
            && (Normalize(Collect(mimes, SlotData(s.slots))) == ps
                <==> forall i :: 0 <= i < |qs| ==> |s.slots[i].data| == |qs[i].data|)
            && (s.failed == {} && WrittenPerPipe(script, |mimes|) == Datas(qs)
                ==> Normalize(Collect(mimes, SlotData(s.slots))) == ps)
  {
    var s, qs := After(MAX_PAYLOAD_BYTES, Initial(script, capacities), acts), Asked(ps, mimes);
    SlotCountKept(MAX_PAYLOAD_BYTES, Initial(script, capacities), acts);
    var datas := SlotData(s.slots);
    forall i | 0 <= i < |qs|
      ensures s.slots[i].data <= qs[i].data && (i !in s.failed ==> s.slots[i].data == Written(script, i))
    {
      FaultyResultIsPrefix(script, MAX_PAYLOAD_BYTES, capacities, acts, i);
      assert Written(script, i) <= qs[i].data;
    }
    CapturedWholeIff(ps, mimes, datas);
    WholeIff(qs, datas);
    if s.failed == {} && WrittenPerPipe(script, |mimes|) == Datas(qs) {
      assert datas == WrittenPerPipe(script, |mimes|);
    }
  }

  lemma WholeIff(ps: seq<Payload>, datas: seq<Bytes>)
    requires |datas| == |ps| && forall i :: 0 <= i < |ps| ==> datas[i] <= ps[i].data
    ensures datas == Datas(ps) <==> forall i :: 0 <= i < |ps| ==> |datas[i]| == |ps[i].data|
  {
    forall i | 0 <= i < |ps| ensures datas[i] == Datas(ps)[i] <==> |datas[i]| == |ps[i].data| {
      assert datas[i] == ps[i].data[..|datas[i]|];
    }
  }
}
