/** What the watcher does with an offer that is ready: drain, canonicalise, hash, suppress or store. */
module Watcher {
  import opened Prelude
  import opened Drain
  import opened DrainReader
  import opened Payloads
  import opened HashInput
  import Tables
  import Database
  import Suppress

  const MAX_PAYLOAD_BYTES: nat := 64 * 1024 * 1024

  predicate AnyStartsWith(mimes: seq<Bytes>, prefix: Bytes) {
    exists i :: 0 <= i < |mimes| && prefix <= mimes[i]
  }

  /** By priority: copied files, images, links, text. */
  function ClassifyKind(mimes: seq<Bytes>): Tables.Kind {
    if Ascii("x-special/gnome-copied-files") in mimes || Ascii("x-kde-cut-selection") in mimes
       || AnyStartsWith(mimes, Ascii("x-special/"))
       || (Ascii("text/uri-list") in mimes
           && (AnyStartsWith(mimes, Ascii("application/x-kde")) || AnyStartsWith(mimes, Ascii("x-special"))))
    then Tables.File
    else if AnyStartsWith(mimes, Ascii("image/")) then Tables.Image
    else if Ascii("text/uri-list") in mimes then Tables.Uri
    else if AnyStartsWith(mimes, Ascii("text/")) then Tables.Text
    else Tables.Other
  }

  /** How specific a kind is; smaller is more specific. */
  function Rank(kind: Tables.Kind): nat {
    match kind
    case File => 0
    case Image => 1
    case Uri => 2
    case Text => 3
    case Other => 4
  }

  lemma StartsWithMore(a: seq<Bytes>, b: seq<Bytes>, prefix: Bytes)
    ensures AnyStartsWith(a + b, prefix) <==> AnyStartsWith(a, prefix) || AnyStartsWith(b, prefix)
  {
    forall i | 0 <= i < |a| && prefix <= a[i] ensures AnyStartsWith(a + b, prefix) {
      assert (a + b)[i] == a[i];
    }
    forall i | 0 <= i < |b| && prefix <= b[i] ensures AnyStartsWith(a + b, prefix) {
      assert (a + b)[|a| + i] == b[i];
    }
  }

  /** Offering more types never makes a kind less specific. */
  lemma MoreTypesMoreSpecific(a: seq<Bytes>, b: seq<Bytes>)
    ensures Rank(ClassifyKind(a + b)) <= Rank(ClassifyKind(a))
    ensures Rank(ClassifyKind(a + b)) <= Rank(ClassifyKind(b))
  {
    StartsWithMore(a, b, Ascii("x-special/"));
    StartsWithMore(a, b, Ascii("application/x-kde"));
    StartsWithMore(a, b, Ascii("x-special"));
    StartsWithMore(a, b, Ascii("image/"));
    StartsWithMore(a, b, Ascii("text/"));
  }

  // ----- the kinds, said of the names

  ghost predicate OffersName(mimes: seq<Bytes>, text: string) {
    exists m :: m in mimes && Reads(m, text)
  }

  ghost predicate OffersPrefix(mimes: seq<Bytes>, text: string) {
    exists m :: m in mimes && BeginsWith(m, text)
  }

  /** Files were cut or copied in a file manager. */
  ghost predicate OffersFiles(mimes: seq<Bytes>) {
    || OffersName(mimes, "x-special/gnome-copied-files")
    || OffersName(mimes, "x-kde-cut-selection")
    || OffersPrefix(mimes, "x-special/")
    || (OffersName(mimes, "text/uri-list")
        && (OffersPrefix(mimes, "application/x-kde") || OffersPrefix(mimes, "x-special")))
  }

  lemma OffersNameIff(mimes: seq<Bytes>, text: string)
    requires forall i :: 0 <= i < |text| ==> text[i] as int < 128
    ensures Ascii(text) in mimes <==> OffersName(mimes, text)
  {
    AsciiReads(Ascii(text), text);
    forall m ensures m == Ascii(text) <==> Reads(m, text) {
      AsciiReads(m, text);
    }
  }

  lemma OffersPrefixIff(mimes: seq<Bytes>, text: string)
    requires forall i :: 0 <= i < |text| ==> text[i] as int < 128
    ensures AnyStartsWith(mimes, Ascii(text)) <==> OffersPrefix(mimes, text)
  {
    forall m ensures Ascii(text) <= m <==> BeginsWith(m, text) {
      AsciiReads(m, text);
    }
    if m :| m in mimes && BeginsWith(m, text) {
      var i :| 0 <= i < |mimes| && mimes[i] == m;
    }
    if i :| 0 <= i < |mimes| && Ascii(text) <= mimes[i] {
      assert mimes[i] in mimes && BeginsWith(mimes[i], text);
    }
  }

  /** Each kind, by the names offered. */
  lemma KindIff(mimes: seq<Bytes>)
    ensures ClassifyKind(mimes).File? <==> OffersFiles(mimes)
    ensures ClassifyKind(mimes).Image? <==> !OffersFiles(mimes) && OffersPrefix(mimes, "image/")
    ensures ClassifyKind(mimes).Uri? <==>
            !OffersFiles(mimes) && !OffersPrefix(mimes, "image/") && OffersName(mimes, "text/uri-list")
    ensures ClassifyKind(mimes).Text? <==>
            && !OffersFiles(mimes) && !OffersPrefix(mimes, "image/") && !OffersName(mimes, "text/uri-list")
            && OffersPrefix(mimes, "text/")
    ensures ClassifyKind(mimes).Other? <==>
            && !OffersFiles(mimes) && !OffersPrefix(mimes, "image/") && !OffersName(mimes, "text/uri-list")
            && !OffersPrefix(mimes, "text/")
  {
    FilesIff(mimes);
    OffersNameIff(mimes, "text/uri-list");
    OffersPrefixIff(mimes, "image/");
    OffersPrefixIff(mimes, "text/");
  }

  lemma FilesIff(mimes: seq<Bytes>)
    ensures ClassifyKind(mimes).File? <==> OffersFiles(mimes)
  {
    OffersNameIff(mimes, "x-special/gnome-copied-files");
    OffersNameIff(mimes, "x-kde-cut-selection");
    OffersNameIff(mimes, "text/uri-list");
    OffersPrefixIff(mimes, "x-special/");
    OffersPrefixIff(mimes, "application/x-kde");
    OffersPrefixIff(mimes, "x-special");
  }

  /** The kind depends only on which names are offered. */
  lemma KindOfSet(a: seq<Bytes>, b: seq<Bytes>)
    requires forall m :: m in a <==> m in b
    ensures ClassifyKind(a) == ClassifyKind(b)
  {
    KindIff(a);
    KindIff(b);
  }

  /** The functions the daemon takes from libraries: the digest, and the label of a kind of entry. */
  datatype Env = Env(digest: Bytes -> Bytes, labelOf: (Tables.Kind, seq<Payload>) -> Bytes)

  function HashOf(env: Env, payloads: seq<Payload>): Bytes {
    (env.digest)(HashStream(payloads))
  }

  /** The row the watcher asks the store to keep for canonical payloads. */
  function EntryFor(env: Env, payloads: seq<Payload>, now: int): Tables.NewEntry {
    var kind := ClassifyKind(Mimes(payloads));
    var text := (env.labelOf)(kind, payloads);
    Tables.NewEntry(HashOf(env, payloads), kind, text, text, PayloadBytes(payloads), now, payloads)
  }

  /** The canonical payloads a fault-free read of an offer yields, if it yields any. */
  function Captured(mimes: seq<Bytes>, script: seq<Op>): Option<seq<Payload>> {
    match DrainSpec(mimes, script, MAX_PAYLOAD_BYTES)
    case Ok(payloads) => if payloads == [] then None else Some(Normalize(payloads))
    case Err(_) => None
  }

  /** The canonical payloads a finished read has delivered, faults and all. */
  ghost function Received(kernel: Kernel, mimes: seq<Bytes>): Option<seq<Payload>>
    requires kernel.Valid() && |kernel.Now().slots| == |mimes|
    reads kernel
  {
    var payloads := Collect(mimes, SlotData(kernel.Now().slots));
    if kernel.Now().phase == Returned(Complete) && payloads != [] then Some(Normalize(payloads)) else None
  }

  datatype Outcome = NothingCaptured | Suppressed | Kept(id: nat)

  method SumSizes(payloads: seq<Payload>) returns (n: nat)
    ensures n == PayloadBytes(payloads)
  {
    n := 0;
    for i := 0 to |payloads|
      invariant n + PayloadBytes(payloads[i..]) == PayloadBytes(payloads)
    {
      assert payloads[i..][1..] == payloads[i + 1..];
      n := n + |payloads[i].data|;
    }
  }

  /** Reads the offer and decides.  Nothing captured leaves everything alone; a suppressed capture
      leaves the store alone; any other capture is stored as the entry its payloads determine, and the
      tables are trimmed. */
  method ProcessReady(env: Env, kernel: Kernel, mimes: seq<Bytes>, suppress: Suppress.SuppressState,
                      db: Database.Database, instant: int, now: int)
      returns (outcome: Outcome)
    requires kernel.Valid() && kernel.trace == [] && kernel.limit == MAX_PAYLOAD_BYTES && |mimes| == |kernel.capacities|
    requires db.Valid()
    modifies kernel, suppress, db
    ensures db.Valid() && kernel.Valid() && |kernel.Now().slots| == |mimes|
    ensures !kernel.faulty ==> Received(kernel, mimes) == Captured(mimes, kernel.source)
    ensures match Received(kernel, mimes)
            case None =>
              outcome == NothingCaptured
                  && suppress.pending == old(suppress.pending) && db.Contents() == old(db.Contents())
            case Some(payloads) =>
              var hash := HashOf(env, payloads);
              && suppress.pending == Suppress.CellAfter(old(suppress.pending), Suppress.Query(hash, instant))
              && if Suppress.Answer(old(suppress.pending), hash, instant)
                 then outcome == Suppressed && db.Contents() == old(db.Contents())
                 else
                   var e := EntryFor(env, payloads, now);
                   && outcome == Kept(Tables.InsertedId(old(db.Contents()), e))
                   && Tables.TrimsTo(Tables.Stored(old(db.Contents()), e), db.Contents())
                   && forall r :: r in db.entries && r.hash == hash ==>
                        && r.id == outcome.id && r.kind == ClassifyKind(Mimes(payloads))
                        && r.labelText == r.preview == (env.labelOf)(r.kind, payloads)
                        && r.size == PayloadBytes(payloads) && r.lastUsedAt == now
  {
    var drained := ReadPayloadPipes(kernel, mimes, MAX_PAYLOAD_BYTES);
    if drained.Err? || drained.payloads == [] {
      return NothingCaptured;
    }
    var payloads := NormalizePayloads(drained.payloads);
    var size := SumSizes(payloads);
    var hash := PayloadHash(env.digest, payloads);
    var answer := suppress.ShouldSuppressAt(hash, instant);
    if answer {
      return Suppressed;
    }
    var kind := ClassifyKind(Mimes(payloads));
    var text := (env.labelOf)(kind, payloads);
    var id := db.Insert(Tables.NewEntry(hash, kind, text, text, size, now, payloads));
    outcome := Kept(id);
  }
}
