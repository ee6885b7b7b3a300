/** How Wayland data-control events become an offer worth reading. */
module Offers {
  import opened Prelude

  /** What the compositor announces; offers are known by their protocol object id. */
  datatype Event =
    | DataOffer(id: nat)
    | Offer(id: nat, mime: Bytes)
    | Selection(selected: Option<nat>)
    | Finished

  datatype PendingOffer = PendingOffer(id: nat, mimeTypes: seq<Bytes>)

  const PASSWORD_MANAGER_HINT_MIME: Bytes := Ascii("x-kde-passwordManagerHint")

  const SKIP_MIME_PREFIXES: seq<Bytes> := [
    Ascii("application/vnd.portal.filetransfer"),
    Ascii("application/vnd.portal.files"),
    Ascii("application/x-moz-custom-clipdata")
  ]

  predicate ShouldSkip(mime: Bytes) {
    exists i :: 0 <= i < |SKIP_MIME_PREFIXES| && SKIP_MIME_PREFIXES[i] <= mime
  }

  function AsciiLower(b: Byte): Byte {
    if 65 <= b <= 90 then b + 32 else b
  }

  predicate EqIgnoreAsciiCase(a: Bytes, b: Bytes) {
    |a| == |b| && forall i :: 0 <= i < |a| ==> AsciiLower(a[i]) == AsciiLower(b[i])
  }

  /** The password managers' marker, in any letter case. */
  predicate IsHint(mime: Bytes) {
    EqIgnoreAsciiCase(mime, PASSWORD_MANAGER_HINT_MIME)
  }

  predicate IsSensitive(mimeTypes: seq<Bytes>) {
    exists i :: 0 <= i < |mimeTypes| && IsHint(mimeTypes[i])
  }

  predicate Kept(mime: Bytes) { !ShouldSkip(mime) }

  function Filter(f: Bytes -> bool, s: seq<Bytes>): (r: seq<Bytes>)
    ensures forall m :: m in r <==> m in s && f(m)
  {
    if s == [] then [] else (if f(s[0]) then [s[0]] else []) + Filter(f, s[1..])
  }

  /** The types left after the skipped prefixes are filtered out. */
  function Unskipped(mimeTypes: seq<Bytes>): seq<Bytes> {
    Filter(Kept, mimeTypes)
  }

  function AddNew(list: seq<Bytes>, mime: Bytes): seq<Bytes> {
    if mime in list then list else list + [mime]
  }

  // ----- the state machine

  datatype Watch = Watch(pendingOffers: map<nat, seq<Bytes>>, ready: Option<PendingOffer>)

  function Readable(id: nat, mimeTypes: seq<Bytes>): Option<PendingOffer> {
    if !IsSensitive(mimeTypes) && Unskipped(mimeTypes) != [] then Some(PendingOffer(id, Unskipped(mimeTypes))) else None
  }

  function Handle(w: Watch, e: Event): Watch {
    match e
    case DataOffer(id) => w.(pendingOffers := w.pendingOffers[id := []])
    case Offer(id, mime) =>
      if id in w.pendingOffers then w.(pendingOffers := w.pendingOffers[id := AddNew(w.pendingOffers[id], mime)]) else w
    case Selection(selected) =>
      var found := if selected.Some? && selected.value in w.pendingOffers
                   then Readable(selected.value, w.pendingOffers[selected.value]) else None;
      Watch(map[], if found.Some? then found else w.ready)
    case Finished => w
  }

  class WatchState {
    var pendingOffers: map<nat, seq<Bytes>>
    var ready: Option<PendingOffer>

    constructor ()
      ensures State() == Watch(map[], None)
    {
      pendingOffers, ready := map[], None;
    }

    ghost function State(): Watch
      reads this
    {
      Watch(pendingOffers, ready)
    }

    /** A new offer object. */
    method OnDataOffer(id: nat)
      modifies this
      ensures State() == Handle(old(State()), DataOffer(id))
    {
      pendingOffers := pendingOffers[id := []];
    }

    /** One more type announced for an offer. */
    method OnOffer(id: nat, mime: Bytes)
      modifies this
      ensures State() == Handle(old(State()), Offer(id, mime))
    {
      if id in pendingOffers {
        var list := pendingOffers[id];
        if mime !in list {
          pendingOffers := pendingOffers[id := list + [mime]];
        }
      }
    }

    /** The clipboard changed hands. */
    method OnSelection(selected: Option<nat>)
      modifies this
      ensures State() == Handle(old(State()), Selection(selected))
    {
      var mimeTypes: Option<seq<Bytes>> := None;
      if selected.Some? && selected.value in pendingOffers {
        mimeTypes := Some(pendingOffers[selected.value]);
      }
      pendingOffers := map[];
      if mimeTypes.Some? && !IsSensitive(mimeTypes.value) {
        var kept := Unskipped(mimeTypes.value);
        if kept != [] {
          ready := Some(PendingOffer(selected.value, kept));
        }
      }
    }

    /** The main loop takes the offer it is about to read. */
    method TakeReady() returns (taken: Option<PendingOffer>)
      modifies this
      ensures taken == old(ready) && State() == old(State()).(ready := None)
    {
      taken := ready;
      ready := None;
    }
  }

  // ----- what a trace of events says about an offer

  /** The types announced for `id` since it was last created, or None if the trace does not create it. */
  function TypesSinceCreated(window: seq<Event>, id: nat): Option<seq<Bytes>> {
    if window == [] then None
    else
      var last := window[|window| - 1];
      var before := TypesSinceCreated(window[..|window| - 1], id);
      match last
      case DataOffer(i) => if i == id then Some([]) else before
      case Offer(i, mime) => if i == id && before.Some? then Some(before.value + [mime]) else before
      case _ => before
  }

  /** The events since the last selection. */
  function Window(trace: seq<Event>): seq<Event> {
    if trace == [] || trace[|trace| - 1].Selection? then []
    else Window(trace[..|trace| - 1]) + [trace[|trace| - 1]]
  }

  /** Each type once, where it first occurs. */
  function FirstOccurrences(types: seq<Bytes>): seq<Bytes> {
    if types == [] then [] else AddNew(FirstOccurrences(types[..|types| - 1]), types[|types| - 1])
  }

  /** The offer a selection ending the trace would have us read. */
  function Announced(trace: seq<Event>, id: nat): Option<seq<Bytes>> {
    match TypesSinceCreated(Window(trace), id)
    case None => None
    case Some(types) => Some(FirstOccurrences(types))
  }

  /** A step of the watcher: an event, or the main loop taking what is ready. */
  datatype Step = Dispatch(event: Event) | Take

  function Run(steps: seq<Step>): Watch {
    if steps == [] then Watch(map[], None)
    else
      var before := Run(steps[..|steps| - 1]);
      match steps[|steps| - 1]
      case Dispatch(e) => Handle(before, e)
      case Take => before.(ready := None)
  }

  function Events(steps: seq<Step>): seq<Event> {
    if steps == [] then []
    else
      var before := Events(steps[..|steps| - 1]);
      match steps[|steps| - 1]
      case Dispatch(e) => before + [e]
      case Take => before
  }

  lemma EventsAppend(steps: seq<Step>)
    requires steps != [] && steps[|steps| - 1].Dispatch?
    ensures var trace := Events(steps);
            trace != [] && trace[|trace| - 1] == steps[|steps| - 1].event
                && trace[..|trace| - 1] == Events(steps[..|steps| - 1])
  {
  }

  /** What one more event that is not a selection adds to the window. */
  lemma TypesStep(steps: seq<Step>, e: Event, id: nat)
    requires !e.Selection?
    ensures var before := TypesSinceCreated(Window(Events(steps)), id);
            TypesSinceCreated(Window(Events(steps + [Dispatch(e)])), id) ==
              match e
              case DataOffer(i) => if i == id then Some([]) else before
              case Offer(i, mime) => if i == id && before.Some? then Some(before.value + [mime]) else before
              case _ => before
  {
    var all := steps + [Dispatch(e)];
    assert all[..|all| - 1] == steps;
    EventsAppend(all);
    var w := Window(Events(steps));
    assert Window(Events(all)) == w + [e];
    assert (w + [e])[..|w|] == w;
  }

  /** The pending list for `id` is what the trace announces. */
  ghost predicate Agrees(pending: map<nat, seq<Bytes>>, trace: seq<Event>, id: nat) {
    && (id in pending <==> Announced(trace, id).Some?)
    && (id in pending ==> pending[id] == Announced(trace, id).value)
  }

  lemma FirstOccurrencesGrow(types: seq<Bytes>, mime: Bytes)
    ensures FirstOccurrences(types + [mime]) == AddNew(FirstOccurrences(types), mime)
  {
    assert (types + [mime])[..|types|] == types;
  }

  lemma EventKeepsAgreement(steps: seq<Step>, e: Event, id: nat)
    requires Agrees(Run(steps).pendingOffers, Events(steps), id)
    ensures Agrees(Handle(Run(steps), e).pendingOffers, Events(steps + [Dispatch(e)]), id)
  {
    if e.Selection? {
      assert (steps + [Dispatch(e)])[..|steps|] == steps;
    } else {
      TypesStep(steps, e, id);
      if e.Offer? && e.id == id && TypesSinceCreated(Window(Events(steps)), id).Some? {
        FirstOccurrencesGrow(TypesSinceCreated(Window(Events(steps)), id).value, e.mime);
      }
    }
  }

  /** The pending offers are those created in the current window, with their types in order of first
      announcement. */
  lemma {:induction false} PendingOffersAreAnnounced(steps: seq<Step>, id: nat)
    ensures Agrees(Run(steps).pendingOffers, Events(steps), id)
    decreases |steps|
  {
    if steps != [] {
      var front := steps[..|steps| - 1];
      PendingOffersAreAnnounced(front, id);
      match steps[|steps| - 1]
      case Take =>
      case Dispatch(e) =>
        EventKeepsAgreement(front, e, id);
        assert steps == front + [Dispatch(e)];
    }
  }

  /** A selection makes an offer ready exactly when it was announced in this window, without the
      marker, and with something left to read; otherwise what was ready stays, and no offer stays
      pending. */
  lemma SelectionRefinesTrace(steps: seq<Step>, selected: Option<nat>)
    ensures var before := Run(steps);
            var after := Run(steps + [Dispatch(Selection(selected))]);
            && after.pendingOffers == map[]
            && var types := if selected.Some? then Announced(Events(steps), selected.value) else None;
               after.ready ==
                 if types.Some? && !IsSensitive(types.value) && Unskipped(types.value) != []
                 then Some(PendingOffer(selected.value, Unskipped(types.value)))
                 else before.ready
  {
    assert (steps + [Dispatch(Selection(selected))])[..|steps|] == steps;
    if selected.Some? {
      PendingOffersAreAnnounced(steps, selected.value);
    }
  }

  // ----- the marker and the skipped types, letter by letter

  /** The byte of the letter in either case, or of any other character itself. */
  predicate EitherCase(b: Byte, c: char) {
    var code := c as int;
    b == code || ('a' <= c <= 'z' && b == code - 32) || ('A' <= c <= 'Z' && b == code + 32)
  }

  predicate ReadsInAnyCase(m: Bytes, text: string) {
    |m| == |text| && forall i :: 0 <= i < |text| ==> EitherCase(m[i], text[i])
  }

  predicate IsMarker(m: Bytes) { ReadsInAnyCase(m, "x-kde-passwordManagerHint") }

  lemma SameLowerIff(b: Byte, c: char)
    requires c as int < 128
    ensures AsciiLower(b) == AsciiLower(c as int) <==> EitherCase(b, c)
  {
  }

  lemma EqIgnoreCaseIff(m: Bytes, text: string)
    requires forall i :: 0 <= i < |text| ==> text[i] as int < 128
    ensures EqIgnoreAsciiCase(m, Ascii(text)) <==> ReadsInAnyCase(m, text)
  {
    if |m| == |text| {
      forall i | 0 <= i < |text|
        ensures AsciiLower(m[i]) == AsciiLower(Ascii(text)[i]) <==> EitherCase(m[i], text[i])
      {
        SameLowerIff(m[i], text[i]);
      }
    }
  }

  /** The marker is this text, each of its letters in either case. */
  lemma HintIff(m: Bytes)
    ensures IsHint(m) <==> IsMarker(m)
  {
    EqIgnoreCaseIff(m, "x-kde-passwordManagerHint");
  }

  predicate IsSkipped(m: Bytes) {
    || BeginsWith(m, "application/vnd.portal.filetransfer")
    || BeginsWith(m, "application/vnd.portal.files")
    || BeginsWith(m, "application/x-moz-custom-clipdata")
  }

  /** The skipped types are those that begin with one of three texts. */
  lemma SkippedIff(m: Bytes)
    ensures ShouldSkip(m) <==> IsSkipped(m)
  {
    PortalReads(m);
    AsciiReads(m, "application/x-moz-custom-clipdata");
    assert SKIP_MIME_PREFIXES[0] <= m || SKIP_MIME_PREFIXES[1] <= m || SKIP_MIME_PREFIXES[2] <= m <==> ShouldSkip(m);
  }

  lemma PortalReads(m: Bytes)
    ensures SKIP_MIME_PREFIXES[0] <= m <==> BeginsWith(m, "application/vnd.portal.filetransfer")
    ensures SKIP_MIME_PREFIXES[1] <= m <==> BeginsWith(m, "application/vnd.portal.files")
  {
    AsciiReads(m, "application/vnd.portal.filetransfer");
    AsciiReads(m, "application/vnd.portal.files");
  }

  // ----- the marker

  lemma {:induction false} FirstOccurrencesMembers(types: seq<Bytes>)
    ensures forall m :: m in FirstOccurrences(types) <==> m in types
    ensures NoDuplicates(FirstOccurrences(types))
  {
    if types != [] {
      FirstOccurrencesMembers(types[..|types| - 1]);
      assert types == types[..|types| - 1] + [types[|types| - 1]];
    }
  }

  lemma {:induction false} FilterKeepsDistinct(f: Bytes -> bool, types: seq<Bytes>)
    requires NoDuplicates(types)
    ensures NoDuplicates(Filter(f, types))
  {
    if types != [] {
      FilterKeepsDistinct(f, types[1..]);
      assert types[0] !in types[1..];
    }
  }

  /** Where the ready offer came from: a selection in the past, of exactly these types. */
  ghost predicate ReadyFrom(steps: seq<Step>, k: nat, p: PendingOffer) {
    && k < |steps| && steps[k] == Dispatch(Selection(Some(p.id)))
    && Announced(Events(steps[..k]), p.id).Some?
    && var types := Announced(Events(steps[..k]), p.id).value;
       !IsSensitive(types) && p.mimeTypes == Unskipped(types) && p.mimeTypes != []
  }

  /** In every run, whatever the main loop takes was selected earlier, and none of the types announced
      for it up to that selection was the marker or is read if it is to be skipped. */
  lemma {:induction false} TakenWasAnnouncedSafely(steps: seq<Step>) returns (k: nat)
    requires Run(steps).ready.Some?
    ensures ReadyFrom(steps, k, Run(steps).ready.value)
    decreases |steps|
  {
    var front, last := steps[..|steps| - 1], steps[|steps| - 1];
    if last.Dispatch? && last.event.Selection? && last.event.selected.Some? {
      var id := last.event.selected.value;
      PendingOffersAreAnnounced(front, id);
      var types := Announced(Events(front), id);
      if types.Some? && Readable(id, types.value).Some? {
        k := |front|;
        return;
      }
    }
    k := TakenWasAnnouncedSafely(front);
    assert steps[..k] == front[..k];
  }

  /** `read` is `types` without the skipped ones, and `types` lacks the marker. */
  ghost predicate ReadSafely(types: seq<Bytes>, read: seq<Bytes>) {
    && (forall m :: m in types ==> !IsMarker(m))
    && (forall m :: m in read <==> m in types && !IsSkipped(m))
    && NoDuplicates(read)
  }

  lemma UnskippedReadsSafely(raw: seq<Bytes>)
    requires !IsSensitive(FirstOccurrences(raw))
    ensures ReadSafely(FirstOccurrences(raw), Unskipped(FirstOccurrences(raw)))
  {
    var types := FirstOccurrences(raw);
    FirstOccurrencesMembers(raw);
    FilterKeepsDistinct(Kept, types);
    forall m | m in types ensures !IsMarker(m) && (ShouldSkip(m) <==> IsSkipped(m)) {
      HintIff(m);
      SkippedIff(m);
      var i :| 0 <= i < |types| && types[i] == m;
    }
  }

  /** No type that is ever taken to be read, nor any announced beside it before its selection, is the
      marker in any letter case. */
  lemma MarkedOffersAreNeverRead(steps: seq<Step>) returns (k: nat)
    requires Run(steps).ready.Some?
    ensures k < |steps| && steps[k] == Dispatch(Selection(Some(Run(steps).ready.value.id)))
    ensures var types := Announced(Events(steps[..k]), Run(steps).ready.value.id);
            types.Some? && ReadSafely(types.value, Run(steps).ready.value.mimeTypes)
  {
    k := TakenWasAnnouncedSafely(steps);
    UnskippedReadsSafely(TypesSinceCreated(Window(Events(steps[..k])), Run(steps).ready.value.id).value);
  }

  // ----- what a selection reads, letter by letter

  /** Where a type is first announced. */
  function FirstIndex(types: seq<Bytes>, m: Bytes): (k: nat)
    ensures k <= |types| && (k < |types| <==> m in types)
    ensures k < |types| ==> types[k] == m && m !in types[..k]
  {
    if types == [] || types[0] == m then 0
    else
      assert types == [types[0]] + types[1..];
      1 + FirstIndex(types[1..], m)
  }

  predicate InOrderOf(list: seq<Bytes>, types: seq<Bytes>) {
    forall i, j :: 0 <= i < j < |list| ==> FirstIndex(types, list[i]) < FirstIndex(types, list[j])
  }

  /** Just the types of `types` that are not skipped, each once, in the order first announced. */
  ghost predicate ReadsWhatIsLeft(kept: seq<Bytes>, types: seq<Bytes>) {
    (forall m :: m in kept <==> m in types && !IsSkipped(m)) && InOrderOf(kept, types)
  }

  lemma FirstIndexGrows(types: seq<Bytes>, m: Bytes, more: Bytes)
    ensures m in types ==> FirstIndex(types + [more], m) == FirstIndex(types, m)
    ensures m !in types && m == more ==> FirstIndex(types + [more], m) == |types|
  {
    var all, k := types + [more], FirstIndex(types + [more], m);
    if m in types {
      var i := FirstIndex(types, m);
      assert all[i] == m && all[..i] == types[..i];
      IndexUnique(all, m, k, i);
    } else if m == more {
      assert all[|types|] == m && all[..|types|] == types;
      IndexUnique(all, m, k, |types|);
    }
  }

  lemma NotBefore(types: seq<Bytes>, m: Bytes, j: nat)
    requires j <= |types| && m !in types[..j]
    ensures forall k :: 0 <= k < j ==> types[k] != m
  {
    forall k | 0 <= k < j ensures types[k] != m {
      assert types[..j][k] in types[..j];
    }
  }

  lemma IndexUnique(types: seq<Bytes>, m: Bytes, i: nat, j: nat)
    requires i < |types| && j < |types| && types[i] == m == types[j] && m !in types[..i] && m !in types[..j]
    ensures i == j
  {
    NotBefore(types, m, i);
    NotBefore(types, m, j);
  }

  lemma {:induction false} FirstOccurrencesInOrder(types: seq<Bytes>)
    ensures InOrderOf(FirstOccurrences(types), types)
  {
    if types != [] {
      var front, last := types[..|types| - 1], types[|types| - 1];
      FirstOccurrencesInOrder(front);
      FirstOccurrencesMembers(front);
      assert types == front + [last];
      var l := FirstOccurrences(types);
      forall i | 0 <= i < |l|
        ensures if i < |FirstOccurrences(front)| then FirstIndex(types, l[i]) == FirstIndex(front, l[i])
                else FirstIndex(types, l[i]) == |front|
      {
        FirstIndexGrows(front, l[i], last);
        assert i < |FirstOccurrences(front)| ==> l[i] in FirstOccurrences(front);
      }
      forall i | 0 <= i < |FirstOccurrences(front)| ensures FirstIndex(front, l[i]) < |front| {
        assert l[i] in FirstOccurrences(front);
      }
    }
  }

  lemma {:induction false} FilterInOrder(f: Bytes -> bool, list: seq<Bytes>, types: seq<Bytes>)
    requires InOrderOf(list, types)
    ensures InOrderOf(Filter(f, list), types)
  {
    if list != [] {
      FilterInOrder(f, list[1..], types);
      var rest := Filter(f, list[1..]);
      forall j | 0 <= j < |rest| ensures FirstIndex(types, list[0]) < FirstIndex(types, rest[j]) {
        assert rest[j] in rest;
        var k :| 0 <= k < |list[1..]| && list[1..][k] == rest[j];
      }
    }
  }

  lemma UnskippedIsWhatIsLeft(types: seq<Bytes>)
    ensures ReadsWhatIsLeft(Unskipped(FirstOccurrences(types)), types)
  {
    FirstOccurrencesMembers(types);
    FirstOccurrencesInOrder(types);
    FilterInOrder(Kept, FirstOccurrences(types), types);
    forall m ensures m in Unskipped(FirstOccurrences(types)) <==> m in types && !IsSkipped(m) {
      SkippedIff(m);
    }
  }

  lemma SensitiveIff(types: seq<Bytes>)
    ensures IsSensitive(FirstOccurrences(types)) <==> exists m :: m in types && IsMarker(m)
  {
    var list := FirstOccurrences(types);
    FirstOccurrencesMembers(types);
    if i :| 0 <= i < |list| && IsHint(list[i]) {
      HintIff(list[i]);
      assert list[i] in list;
    }
    if m :| m in types && IsMarker(m) {
      HintIff(m);
      var i :| 0 <= i < |list| && list[i] == m;
    }
  }

  /** After any trace, a selection of an offer any of whose types, announced since it was created in this
      window, is the marker in whatever letter case changes nothing; nor does one whose types are all
      skipped.  Otherwise exactly the types not skipped are to be read, each once, as first announced. */
  lemma SelectionReads(steps: seq<Step>, id: nat)
    requires TypesSinceCreated(Window(Events(steps)), id).Some?
    ensures var types := TypesSinceCreated(Window(Events(steps)), id).value;
            var before, after := Run(steps).ready, Run(steps + [Dispatch(Selection(Some(id)))]).ready;
            if (exists m :: m in types && IsMarker(m)) || (forall m :: m in types ==> IsSkipped(m)) then after == before
            else after.Some? && after.value.id == id && ReadsWhatIsLeft(after.value.mimeTypes, types)
  {
    var types := TypesSinceCreated(Window(Events(steps)), id).value;
    var kept := Unskipped(FirstOccurrences(types));
    SelectionRefinesTrace(steps, Some(id));
    SensitiveIff(types);
    UnskippedIsWhatIsLeft(types);
    if kept != [] {
      assert kept[0] in kept;
    }
  }

  /** What is neither created in this window nor selected is not read. */
  lemma UnknownIsNotRead(steps: seq<Step>, selected: Option<nat>)
    requires selected.Some? ==> TypesSinceCreated(Window(Events(steps)), selected.value).None?
    ensures Run(steps + [Dispatch(Selection(selected))]).ready == Run(steps).ready
  {
    SelectionRefinesTrace(steps, selected);
  }
}
