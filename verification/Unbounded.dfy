/** The history that forgets nothing by itself: what has been used, most recently used first. */
module Unbounded {
  import opened Prelude
  import opened Recency
  import opened Tables
  import opened Refinement

  /** What a statement means to the user: something was used, or is to be forgotten. */
  datatype Event = Used(item: Item) | Forgotten(hash: Bytes) | Wiped

  function AfterEvent(l: seq<Item>, e: Event): seq<Item> {
    match e
    case Used(x) => Promote(l, x)
    case Forgotten(hash) => Remove(l, hash)
    case Wiped => []
  }

  function Mru(events: seq<Event>): seq<Item>
    decreases |events|
  {
    if events == [] then [] else AfterEvent(Mru(events[..|events| - 1]), events[|events| - 1])
  }

  // ----- the list, said without promotion

  /** The event neither uses the hash again nor forgets it. */
  predicate Spares(e: Event, hash: Bytes) {
    match e
    case Used(y) => y.hash != hash
    case Forgotten(other) => other != hash
    case Wiped => false
  }

  /** `k` is the last use of the hash of `x`, with the size of `x`, and has not been forgotten. */
  predicate LastUse(events: seq<Event>, x: Item, k: nat) {
    k < |events| && events[k] == Used(x) && forall i :: k < i < |events| ==> Spares(events[i], x.hash)
  }

  ghost predicate Remembered(events: seq<Event>, x: Item) {
    exists k: nat :: LastUse(events, x, k)
  }

  /** The list names each hash once, with what was last used under it, later last uses first. */
  ghost predicate ByLastUse(events: seq<Event>, l: seq<Item>) {
    && Once(l)
    && (forall x :: x in l <==> Remembered(events, x))
    && forall i, j, a: nat, b: nat :: 0 <= i < j < |l| && LastUse(events, l[i], a) && LastUse(events, l[j], b) ==> a > b
  }

  lemma LastUseStep(front: seq<Event>, e: Event, y: Item, k: nat)
    ensures LastUse(front + [e], y, k) <==>
            (k < |front| && LastUse(front, y, k) && Spares(e, y.hash)) || (k == |front| && e == Used(y))
  {
    var events := front + [e];
    assert forall i :: 0 <= i < |front| ==> events[i] == front[i];
    assert events[|front|] == e;
  }

  lemma RememberedStep(front: seq<Event>, e: Event, y: Item)
    ensures Remembered(front + [e], y) <==> (Remembered(front, y) && Spares(e, y.hash)) || e == Used(y)
  {
    LastUseStep(front, e, y, |front|);
    if k: nat :| LastUse(front, y, k) && Spares(e, y.hash) {
      LastUseStep(front, e, y, k);
    }
    if k: nat :| LastUse(front + [e], y, k) {
      LastUseStep(front, e, y, k);
    }
  }

  /** Removing a hash leaves the others in their order. */
  lemma RemoveKeepsOrder(l: seq<Item>, hash: Bytes, i: nat, j: nat) returns (a: nat, b: nat)
    requires Once(l) && i < j < |Remove(l, hash)|
    ensures a < b < |l| && l[a] == Remove(l, hash)[i] && l[b] == Remove(l, hash)[j]
  {
    a, b := i, j;
    if k :| 0 <= k < |l| && l[k].hash == hash {
      RemoveAt(l, k);
      assert Remove(l, hash) == l[..k] + l[k + 1..];
      a, b := if i < k then i else i + 1, if j < k then j else j + 1;
    } else {
      RemoveAbsent(l, hash);
    }
  }

  lemma RemovedByLastUse(front: seq<Event>, e: Event, l: seq<Item>, hash: Bytes, i: nat, j: nat, a: nat, b: nat)
    requires ByLastUse(front, l) && i < j < |Remove(l, hash)|
    requires LastUse(front + [e], Remove(l, hash)[i], a) && LastUse(front + [e], Remove(l, hash)[j], b)
    requires a < |front| && b < |front|
    ensures a > b
  {
    LastUseStep(front, e, Remove(l, hash)[i], a);
    LastUseStep(front, e, Remove(l, hash)[j], b);
    var c, d := RemoveKeepsOrder(l, hash, i, j);
  }

  lemma PromotedByLastUse(front: seq<Event>, x: Item, l: seq<Item>, i: nat, j: nat, a: nat, b: nat)
    requires ByLastUse(front, l) && i < j < |Promote(l, x)|
    requires LastUse(front + [Used(x)], Promote(l, x)[i], a) && LastUse(front + [Used(x)], Promote(l, x)[j], b)
    ensures a > b
  {
    var rest := Remove(l, x.hash);
    RemoveMembers(l, x.hash);
    assert Promote(l, x)[j] == rest[j - 1] && rest[j - 1] in rest;
    LastUseStep(front, Used(x), rest[j - 1], b);
    LastUseStep(front, Used(x), Promote(l, x)[i], a);
    if i > 0 {
      assert Promote(l, x)[i] == rest[i - 1] && rest[i - 1] in rest;
      RemovedByLastUse(front, Used(x), l, x.hash, i - 1, j - 1, a, b);
    }
  }

  lemma ForgottenByLastUse(front: seq<Event>, hash: Bytes, l: seq<Item>)
    requires ByLastUse(front, l)
    ensures ByLastUse(front + [Forgotten(hash)], Remove(l, hash))
  {
    var e, m := Forgotten(hash), Remove(l, hash);
    RemoveKeepsOnce(l, hash);
    RemoveMembers(l, hash);
    forall x ensures x in m <==> Remembered(front + [e], x) {
      RememberedStep(front, e, x);
    }
    forall i, j, a: nat, b: nat | 0 <= i < j < |m| && LastUse(front + [e], m[i], a) && LastUse(front + [e], m[j], b)
      ensures a > b
    {
      LastUseStep(front, e, m[i], a);
      LastUseStep(front, e, m[j], b);
      RemovedByLastUse(front, e, l, hash, i, j, a, b);
    }
  }

  lemma UsedByLastUse(front: seq<Event>, x: Item, l: seq<Item>)
    requires ByLastUse(front, l)
    ensures ByLastUse(front + [Used(x)], Promote(l, x))
  {
    var e, m := Used(x), Promote(l, x);
    PromoteMembers(l, x);
    forall y ensures y in m <==> Remembered(front + [e], y) {
      RememberedStep(front, e, y);
    }
    forall i, j, a: nat, b: nat | 0 <= i < j < |m| && LastUse(front + [e], m[i], a) && LastUse(front + [e], m[j], b)
      ensures a > b
    {
      PromotedByLastUse(front, x, l, i, j, a, b);
    }
  }

  /** What the unbounded list is. */
  lemma {:induction false} MruIsByLastUse(events: seq<Event>)
    ensures ByLastUse(events, Mru(events))
    decreases |events|
  {
    if events == [] {
    } else {
      var front, e := events[..|events| - 1], events[|events| - 1];
      MruIsByLastUse(front);
      assert events == front + [e];
      match e {
        case Used(x) => UsedByLastUse(front, x, Mru(front));
        case Forgotten(hash) => ForgottenByLastUse(front, hash, Mru(front));
        case Wiped =>
          forall x ensures !Remembered(events, x) {
            RememberedStep(front, e, x);
          }
      }
    }
  }

  lemma MruAppend(events: seq<Event>, e: Event)
    ensures Mru(events + [e]) == AfterEvent(Mru(events), e)
  {
    assert (events + [e])[..|events|] == events;
  }

  // ----- the events of a run

  function ItemWithId(rows: seq<Row>, id: nat): Option<Item> {
    if rows == [] then None
    else if rows[0].id == id then Some(Item(rows[0].hash, rows[0].size))
    else ItemWithId(rows[1..], id)
  }

  /** What one statement does, seen without limits. */
  function EventsOf(h: History, op: Op): seq<Event> {
    match op
    case Insert(e) => [Used(Item(e.hash, e.size))]
    case Touch(id, _) => if ItemWithId(h.entries, id).Some? then [Used(ItemWithId(h.entries, id).value)] else []
    case Delete(id) => if ItemWithId(h.entries, id).Some? then [Forgotten(ItemWithId(h.entries, id).value.hash)] else []
    case Clear => [Wiped]
    case SetLimits(_, _) => []
  }

  function Happened(h: History, ops: seq<Op>): seq<Event>
    decreases |ops|
  {
    if ops == [] then []
    else Happened(h, ops[..|ops| - 1]) + EventsOf(Replay(h, ops[..|ops| - 1]), ops[|ops| - 1])
  }

  lemma ItemOfId(h: History, id: nat) returns (k: nat)
    requires WellFormed(h)
    ensures if id in Ids(h.entries)
            then k < |h.entries| && h.entries[k].id == id
                 && ItemWithId(h.entries, id) == Some(Item(h.entries[k].hash, h.entries[k].size))
            else ItemWithId(h.entries, id) == None
  {
    k := FirstWithId(h.entries, id);
    if k < |h.entries| {
      assert h.entries[k] in h.entries;
    }
  }

  lemma {:induction false} FirstWithId(rows: seq<Row>, id: nat) returns (k: nat)
    ensures k <= |rows| && forall i :: 0 <= i < k ==> rows[i].id != id
    ensures if k < |rows| then rows[k].id == id && ItemWithId(rows, id) == Some(Item(rows[k].hash, rows[k].size))
            else ItemWithId(rows, id) == None
  {
    if rows == [] || rows[0].id == id {
      k := 0;
    } else {
      k := FirstWithId(rows[1..], id);
      k := k + 1;
    }
  }
}
