/** Serving a restored entry: we are the clipboard source that others, and our own watcher, read. */
module Restore {
  import opened Prelude
  import opened Drain

  datatype SourceEvent = Send(mime: Bytes, pipe: nat) | Cancelled | DeviceFinished

  /** The bytes offered under a name: the first payload with that name. */
  function FirstMatch(payloads: seq<Payload>, mime: Bytes): Option<Bytes> {
    if payloads == [] then None
    else if payloads[0].mime == mime then Some(payloads[0].data)
    else FirstMatch(payloads[1..], mime)
  }

  /** What one request makes the source do with the pipe it was handed: write everything and close,
      or just close. */
  function ServeOps(payloads: seq<Payload>, mime: Bytes, pipe: nat): seq<Op> {
    match FirstMatch(payloads, mime)
    case Some(data) => [Write(pipe, data), Close(pipe)]
    case None => [Close(pipe)]
  }

  /** The events up to the one that ends the restore, if any. */
  function UntilDone(events: seq<SourceEvent>): seq<SourceEvent> {
    if events == [] || !events[0].Send? then [] else [events[0]] + UntilDone(events[1..])
  }

  function ServedScript(payloads: seq<Payload>, events: seq<SourceEvent>): seq<Op> {
    if events == [] then []
    else (if events[0].Send? then ServeOps(payloads, events[0].mime, events[0].pipe) else [])
         + ServedScript(payloads, events[1..])
  }

  class RestoreState {
    const payloads: seq<Payload>
    var done: bool

    constructor (payloads: seq<Payload>)
      ensures this.payloads == payloads && !done
    {
      this.payloads := payloads;
      done := false;
    }

    /** The data of the first payload with the name. */
    method Find(mime: Bytes) returns (found: Option<Bytes>)
      ensures found == FirstMatch(payloads, mime)
      ensures match found
              case Some(data) =>
                exists k :: 0 <= k < |payloads| && payloads[k] == Payload(mime, data)
                       && forall j :: 0 <= j < k ==> payloads[j].mime != mime
              case None => forall p :: p in payloads ==> p.mime != mime
    {
      for i := 0 to |payloads|
        invariant FirstMatch(payloads, mime) == FirstMatch(payloads[i..], mime)
        invariant forall j :: 0 <= j < i ==> payloads[j].mime != mime
      {
        assert payloads[i..][1..] == payloads[i + 1..];
        if payloads[i].mime == mime {
          assert payloads[i] == Payload(mime, payloads[i].data);
          return Some(payloads[i].data);
        }
      }
      found := None;
    }

    /** Handles one event; the returned operations are the writes and closes it performs.  A request gets
        all the data under its name, or none, on its own pipe, which is then closed. */
    method Handle(event: SourceEvent) returns (ops: seq<Op>)
      modifies this
      ensures ops == if event.Send? then ServeOps(payloads, event.mime, event.pipe) else []
      ensures event.Send? ==>
                && ops != [] && ops[|ops| - 1] == Close(event.pipe)
                && (forall op :: op in ops ==> op.pipe == event.pipe)
                && Written(ops, event.pipe)
                     == match FirstMatch(payloads, event.mime) case Some(data) => data case None => []
      ensures done == (old(done) || event.Cancelled? || event.DeviceFinished?)
    {
      match event {
        case Send(mime, pipe) =>
          var found := Find(mime);
          ops := if found.Some? then [Write(pipe, found.value), Close(pipe)] else [Close(pipe)];
          WrittenByServe(payloads, mime, pipe);
        case _ =>
          done := true;
          ops := [];
      }
    }

    /** The event loop, over the events that arrive while it runs. */
    method Serve(events: seq<SourceEvent>) returns (script: seq<Op>)
      requires !done
      modifies this
      ensures script == ServedScript(payloads, UntilDone(events))
      ensures done <==> |UntilDone(events)| < |events|
      ensures done <==> exists e :: e in events && (e.Cancelled? || e.DeviceFinished?)
    {
      script := [];
      var i := 0;
      assert events[0..] == events;
      while !done && i < |events|
        invariant 0 <= i <= |events|
        invariant !done ==>
                    && script + ServedScript(payloads, UntilDone(events[i..]))
                         == ServedScript(payloads, UntilDone(events))
                    && i + |UntilDone(events[i..])| == |UntilDone(events)|
        invariant done ==> script == ServedScript(payloads, UntilDone(events)) && |UntilDone(events)| < |events|
      {
        assert events[i..][1..] == events[i + 1..];
        if events[i].Send? {
          assert UntilDone(events[i..])[1..] == UntilDone(events[i + 1..]);
        }
        var ops := Handle(events[i]);
        script := script + ops;
        i := i + 1;
      }
      EndsIff(events);
    }
  }

  lemma {:induction false} EndsIff(events: seq<SourceEvent>)
    ensures |UntilDone(events)| < |events| <==> exists e :: e in events && (e.Cancelled? || e.DeviceFinished?)
  {
    if events != [] {
      EndsIff(events[1..]);
      assert events == [events[0]] + events[1..];
    }
  }

  lemma WrittenByServe(payloads: seq<Payload>, mime: Bytes, pipe: nat)
    ensures Written(ServeOps(payloads, mime, pipe), pipe) ==
            match FirstMatch(payloads, mime) case Some(data) => data case None => []
  {
    var ops := ServeOps(payloads, mime, pipe);
    assert ops[1..] == [] || ops[1..] == [Close(pipe)];
    assert Written([], pipe) == [] && [Close(pipe)][1..] == [];
    assert Written([Close(pipe)], pipe) == [];
  }

  /** The requests for the pipes in `order`, each for the type that pipe was created for. */
  function Sends(mimes: seq<Bytes>, order: seq<nat>): seq<SourceEvent>
    requires forall i :: i in order ==> i < |mimes|
  {
    if order == [] then []
    else
      assert order[0] in order && forall i :: i in order[1..] ==> i in order;
      [Send(mimes[order[0]], order[0])] + Sends(mimes, order[1..])
  }

  lemma {:induction false} SendsAreServed(mimes: seq<Bytes>, order: seq<nat>)
    requires forall i :: i in order ==> i < |mimes|
    ensures UntilDone(Sends(mimes, order)) == Sends(mimes, order)
  {
    if order != [] {
      assert order[0] in order && forall i :: i in order[1..] ==> i in order;
      SendsAreServed(mimes, order[1..]);
      var s := Sends(mimes, order);
      assert s[0] == Send(mimes[order[0]], order[0]) && s[1..] == Sends(mimes, order[1..]);
    }
  }
}
