# mimeclip, modelled and proved

`mimeclip` is a clipboard-history daemon for Wayland. It watches the clipboard, reads every
representation of each new selection, stores them as one entry in a bounded history, and puts an entry
back on the clipboard on request. This project models the parts of it in which that can go wrong, in
Dafny, and proves what the daemon relies on.

The parts, one or a few modules each:

- **Draining the pipes** (`Drain`, `DrainTheorems`, `DrainReader`). A clipboard source that runs a script
  of blocking writes and closes, any number of bounded pipes, and the polling reader, as a step system in
  which every interleaving is a run; and the reader's loop itself, run against a kernel that lets the
  source move inside every call and records the run. The loop refines the step system, so the theorems
  about runs are theorems about the loop.
- **The captured content** (`Payloads`, `HashInput`). The canonical form of a set of payloads, and the
  byte stream that is hashed.
- **Offers** (`Offers`). The event handlers that turn Wayland events into an offer worth reading.
- **The history** (`Recency`, `Tables`, `Ranking`, `Trimming`, `Database`, `Refinement`, `Unbounded`,
  `Clock`, `LruTheorem`).
  `Recency` is the theory of most-recently-used lists and their longest fitting prefix. `Tables` holds the
  two tables as values, with each statement as a function, or, for trimming, as the relation `TrimsTo`,
  because SQL may list rows used at the same instant in any order. `Database` is the store as a class
  whose methods run the statements in place and are proved against those specifications. `Refinement`
  treats whole runs, and `LruTheorem` compares them with a history that forgets only what it is told to
  (`Unbounded`), for stamps that ascend (`Clock`).
- **Restoring** (`Suppress`, `Restore`, `Watcher`, `Server`, `Echo`, `StoreInvariant`, `Protocol`,
  `ProtocolTheorems`, `ProtocolHistory`, `Daemon`). The suppression slot, the source that serves a restored entry, what the
  watcher does with an offer that is ready, the server's restore request, and all of them interleaved at
  the granularity of their locks. `ProtocolHistory` carries the comparison with the unbounded history to
  the interleaved steps. `Daemon` ties the methods to those steps; the end of it is
  `Daemon.EchoLeavesHistory`: when the daemon sees its own offer again, and what it then does to the
  history.
- **Text** (`Percent`, `UriLabel`, `Numbers`, `SizeText`, `Timestamps`). Percent-encoded links and the
  labels read from them, human-readable sizes, and why time stamps may be compared as text.
- `Prelude` and `Ordering` are shared.

Strings that Rust holds as UTF-8 are sequences of bytes, except in `SizeText`, where they are characters.

## What the proofs assume

- **Time stamps.** The daemon reads the clock before it takes the lock (src/daemon/watcher.rs:486-488), so
  a stamp may be older than others already stored, and two may be equal. What trimming and inserting do,
  the invariants over runs, and everything about restores, suppression and echoes is proved for any
  stamps. Only the comparison with the unbounded history (`LruTheorem.BoundedHistoryIsFittingPrefix`,
  `LruTheorem.HistoryIsAlwaysAPrefix`, `ProtocolHistory.StoreIsPrefixOfMemory`) supposes stamps that
  increase in the order of the operations, for otherwise the last use is not the latest stamp;
  `LruTheorem.SurvivesTrimIff` says what a late stamp can cost. The slot's clock is monotonic and read under its lock. Stamps are integers in the store;
  `Timestamps` shows that the stored text orders the same way, for years up to 9999, without leap seconds,
  and not for the `Z`-suffixed text written by the schema migration.
- **Hashes.** The digest is an arbitrary function, and hashes may collide: the invariants of the interleaved
  protocol, the identity of restored entries and the suppression theorem need nothing of it. Whether an
  unsuppressed echo is just a touch depends on the entry's row (`StoreInvariant.InsertKnownIsTouch`,
  `ProtocolTheorems.EchoIsHarmless`, `Daemon.EchoLeavesHistory`): it is exactly if the row agrees with
  its payloads. That always holds if no two lists that occur share a hash (`Protocol.CollisionFree`), a
  hypothesis that holds for NUL-free payloads and a collision-free digest, and that no digest can meet
  where other applications may offer anything (`ProtocolTheorems.OpenEnvironmentsCollide`).
- **Sizes.** `LruTheorem.BoundedHistoryIsFittingPrefix` supposes that what is stored under a hash does not
  get smaller. An entry that shrinks frees room that something evicted might have used;
  `LruTheorem.HistoryIsAlwaysAPrefix` needs no such hypothesis, and says when the table is still the
  longest prefix.
- **Library text functions.** `from_utf8_lossy` leaves valid UTF-8 alone; `to_rfc3339` prints 0, 3, 6 or
  9 digits of fraction and `+00:00`. The label of an entry is an arbitrary function of its kind and
  payloads in the restore theorems.
- **The environment of a drain.** Failed reads, invalid descriptors, timeouts and poll failures are
  steps of the environment. Signals that interrupt a poll are finitely many.
- **The transfer of an echo.** The echo theorems speak of an echo that is read and written without
  failures. A failed read (src/daemon/watcher.rs:377-380) or a failed write (src/daemon/restore.rs:154-156)
  cuts a payload short; `Echo.FaultyEchoIff` says exactly when such an echo is still captured as what was
  stored. Any other is a capture of other payloads, with another hash and possibly a new entry, as for
  any foreign offer (`Daemon.CaptureOther`).

## Where code and documentation differ

- README.md:157 promises that two entries share a hash only with exactly the same content. The separators
  in the hash input are not escaped, so an entry with two or more formats has the same hash input as one
  in which two of them are run together as one, unless the entry is within a few bytes of the size cap.
  An entry with one format shares its hash input with another exactly when its data can be cut at two NULs
  so that a type name that may follow lies between them and some data on either side.
  `HashInput.HashedUniquelyIff` is the exact statement.
- As a consequence a stored entry can come to say what it does not hold. A capture with a known hash
  rewrites kind, label, preview and size (src/common/db.rs:104-113) but not the stored payloads, so after
  two formats and then the two run together as one, the row says 5 bytes over payloads of 2
  (`ProtocolHistory.OverwrittenRow`).
- A byte limit of 2^63 or more passes `parse_size` (`SizeText.LimitsAcceptedIff`), and the store casts it
  to a negative number: every trim then empties the history (`LruTheorem.HugeByteLimitEmpties`).
- README.md says that limits are checked only after a new entry is stored; a configuration reload trims
  as well (src/common/db.rs:50-54), and so does the model.

## Model

| member | source | states |
|---|---|---|
| `DrainTheorems.InitialInv` | src/daemon/watcher.rs:306-315 | The drain invariant holds before the first poll, for any source script that uses only the pipes it was given. |
| `DrainTheorems.StepKeepsInv` | src/daemon/watcher.rs:315-383 | Every step of source or reader, faults included, keeps: per pipe, bytes held + bytes in the pipe + bytes still to be written are the bytes of the script in order; the running total is the sum of what is held and never exceeds the cap (so the saturating subtraction never saturates); a descriptor on the ready list can be read without blocking; TooLarge is only returned when the source writes more than the cap. |
| `DrainTheorems.NoDeadlock` | src/daemon/watcher.rs:295-300 | Composed with any source that closes all its pipes, in every state reached by a fault-free run the reader has returned or some fault-free step is possible. |
| `DrainTheorems.SourceCanMove` | src/daemon/watcher.rs:295-300 | While nothing can be polled, the source is not blocked on a full pipe. |
| `DrainTheorems.RunsAreBounded` | src/daemon/watcher.rs:318-383 | Every run, under any schedule, has at most as many steps as the measure of its start; so runs that cannot be extended have returned. |
| `DrainTheorems.EveryRunCanReturn` | src/daemon/watcher.rs:318-389 | Every fault-free run extends to one in which the reader returns. |
| `DrainTheorems.VerdictIsScheduleIndependent` | src/daemon/watcher.rs:366-388 | A fault-free run that returns succeeds exactly when the script writes at most the cap in all, and then yields, in input order, each non-empty pipe's bytes exactly as written, whatever the interleaving, poll order and chunking. |
| `DrainTheorems.CollectsNonEmptyInOrder` | src/daemon/watcher.rs:385-388 | The result list is exactly the pipes that delivered something, each once, in input order, under its own name. |
| `DrainTheorems.FaultyResultIsPrefix` | src/daemon/watcher.rs:359-381 | With failed reads, invalid descriptors, timeouts and poll failures too, what is held is a prefix of what was written, and all of it on success unless that pipe failed. |
| `DrainTheorems.SequentialReaderDeadlocks` | src/daemon/watcher.rs:295-300 | A reader that drains the first pipe to its end before touching the second never returns, on any schedule, once the source holds the first open while writing a second payload larger than its pipe. |
| `DrainReader.Kernel.Poll` | src/daemon/watcher.rs:324-344 | Poll waits until an active pipe can be read; without faults it neither times out nor fails, whatever the source's script. |
| `DrainReader.Kernel.Read` | src/daemon/watcher.rs:365-381 | A read of a ready pipe returns a non-empty chunk, or end of file, or fails, and never blocks. |
| `DrainReader.PollRetrying` | src/daemon/watcher.rs:334-340 | Interrupted polls are retried until poll reports something, given finitely many signals. |
| `DrainReader.HandleEvent` | src/daemon/watcher.rs:356-382 | Each reported descriptor is dealt with as the protocol's step, and unless the cap is exceeded it lowers room under the cap plus unfinished pipes. |
| `DrainReader.NonEmpty` | src/daemon/watcher.rs:385-388 | The result lists, in input order, the pipes that delivered something. |
| `DrainReader.ReadPayloadPipes` | src/daemon/watcher.rs:301-389 | The draining loop terminates, and without faults returns the result the script determines; with faults its result is explained by the recorded protocol run. |
| `Payloads.PushVariant` | src/daemon/watcher.rs:232-236 | Adding a payload to the ordered map keeps its keys ascending and its content exactly the payloads added. |
| `Payloads.LeastVariant` | src/daemon/watcher.rs:240-260 | Deduplicating, sorting and taking the first gives the lexicographically least variant. |
| `Payloads.NormalizePayloads` | src/daemon/watcher.rs:231-264 | The result is strictly ascending by MIME name, covers the input names, and keeps the least data of each. |
| `Payloads.CanonicalUnique` | src/daemon/watcher.rs:231-264 | There is only one such result for a set of payloads. |
| `Payloads.NormalizeDependsOnSet` | src/daemon/watcher.rs:231-264 | Order and repetition of the input do not matter. |
| `Payloads.NormalizeIdempotent` | src/daemon/watcher.rs:231-264 | Normalising twice is normalising once. |
| `Payloads.NormalizeCoversMimes` | src/daemon/watcher.rs:231-264 | Exactly the captured names remain. |
| `HashInput.PayloadHash` | src/daemon/watcher.rs:266-279 | The digest is fed name, NUL, data, NUL for each payload in sorted order. |
| `HashInput.HashIgnoresOrder` | src/daemon/watcher.rs:266-268 | The hash input is the same for every order of the payloads. |
| `HashInput.HashStreamInjective` | src/daemon/watcher.rs:271-276 | For NUL-free names and data, equal hash inputs come from the same payloads. |
| `HashInput.HashedUniquelyIff` | README.md:157 | The promise that a hash determines the content, among lists the watcher can capture (ascending NUL-free names, no empty data, within the cap if there is one): it holds exactly for the empty list and for a single payload whose data cannot be cut at two NULs with data on both sides and a later type name between them; two or more payloads always collide, unless so close to the cap that no name fits in as data. |
| `Echo.CapturableIsStorable` | src/daemon/watcher.rs:443-470 | The lists meant there, with the 64 MiB cap and the filtered names, are exactly the non-empty lists the watcher captures under NUL-free names. |
| `HashInput.HashCollisionWitness` | src/daemon/watcher.rs:271-276 | Two formats and one format with NULs in its data have the same hash input. |
| `HashInput.CutInsideCollides` | src/daemon/watcher.rs:271-276 | Whatever the cap, an entry collides if one of its payloads can be cut so that the name in the middle falls between its own type and the next. |
| `HashInput.NulFreeCollidesShorter` | src/daemon/watcher.rs:271-276 | What else has the hash input of an entry with NUL-free data has fewer formats. |
| `HashInput.NulFreePairUniqueIff` | src/daemon/watcher.rs:271-276 | Two formats with NUL-free data are hashed uniquely exactly when running them together would exceed the cap. |
| `HashInput.NulFreeTripleWitness` | src/daemon/watcher.rs:271-276 | Three formats with NUL-free data can collide even then: data that reads as a type name takes bytes of data away. |
| `Offers.WatchState.OnDataOffer` | src/daemon/watcher.rs:162-166 | A new offer starts with no types, replacing an older one of the same id. |
| `Offers.WatchState.OnOffer` | src/daemon/watcher.rs:208-215 | A type is appended to its offer unless it is there or the offer is unknown. |
| `Offers.WatchState.OnSelection` | src/daemon/watcher.rs:167-190 | The state after a selection: nothing pending, and ready replaced only by an unmarked offer with something left to read. |
| `Offers.WatchState.TakeReady` | src/daemon/watcher.rs:531-546 | The main loop takes what is ready and leaves nothing. |
| `Offers.PendingOffersAreAnnounced` | src/daemon/watcher.rs:161-216 | After any trace, the pending offers are those created since the last selection, each with its types since its last creation in order of first announcement. |
| `Offers.SelectionRefinesTrace` | src/daemon/watcher.rs:167-190 | After any trace, a selection makes ready exactly the announced types without the skipped ones if no announced type is the marker and something is left; otherwise what was ready stays. |
| `Offers.HintIff` | src/daemon/watcher.rs:225-229 | The marker is "x-kde-passwordManagerHint", each of its letters in either case, and nothing else. |
| `Offers.SkippedIff` | src/daemon/watcher.rs:217-223 | The skipped types are exactly those that begin with one of three literal texts. |
| `Offers.SelectionReads` | src/daemon/watcher.rs:167-190 | After any trace, selecting an offer any of whose types announced in this window is such a marker, or all of whose types are skipped, leaves what is ready as it was; otherwise just its types that begin with none of the three texts are to be read, each once, as first announced. |
| `Offers.UnknownIsNotRead` | src/daemon/watcher.rs:167-173 | Selecting nothing, or what no event since the last selection announced, leaves what is ready as it was. |
| `Offers.TakenWasAnnouncedSafely` | src/daemon/watcher.rs:174-186 | In every run, what is ready comes from one earlier selection of exactly those types. |
| `Offers.MarkedOffersAreNeverRead` | src/daemon/watcher.rs:37-39 | In every run, no type that is read, nor any announced beside it before its selection, is the marker text in any letter case, and exactly those beginning with none of the three texts are read. |
| `Suppress.SuppressState.ArmAt` | src/daemon/suppress.rs:28-33 | Arming overwrites the slot. |
| `Suppress.SuppressState.ShouldSuppressAt` | src/daemon/suppress.rs:35-47 | The answer and the slot left behind. |
| `Suppress.AnswerIff` | src/daemon/suppress.rs:28-47 | Over any history and any times, a query is answered true exactly when the latest arm has its hash, is no older than the TTL (boundary included), and no query since matched it or came too late. |
| `Suppress.AnswerIffNotConsumed` | src/daemon/suppress.rs:28-47 | On a monotonic clock: exactly when the latest arm has its hash, is young enough and was not consumed. |
| `Suppress.SuppressionsBounded` | src/daemon/suppress.rs:28-47 | Suppressions plus a full slot never exceed arms. |
| `Suppress.EachArmSuppressesOnce` | src/daemon/suppress.rs:41-44 | One arm answers at most one query. |
| `Recency.FitPrefixIsLongest` | src/common/db.rs:160-190 | A non-empty prefix of the recency list fits both limits exactly when it is no longer than the one kept. |
| `Recency.NextDoesNotFit` | src/common/db.rs:180-187 | Bringing back the most recently evicted entry would break a limit. |
| `Recency.TrimIdempotent` | src/common/db.rs:160-190 | Trimming twice is trimming once. |
| `Recency.TrimTwice` | src/common/db.rs:160-190 | On recency lists, trimming under one pair of limits and then another is trimming once under the tighter of each. |
| `Recency.TrimAfterPromote` | src/common/db.rs:91-158 | Using an entry in the trimmed list and trimming gives the same as using it in the full list and trimming, unless its size shrinks. |
| `Recency.TouchNeedsNoTrim` | src/common/db.rs:287-293 | Touching a kept entry keeps the list the fitting prefix, without trimming. |
| `Database.Database.constructor` | src/common/db.rs:27-43 | A new store is empty under the given limits. |
| `Database.Database.TrimCount` | src/common/db.rs:161-166 | Exactly the rows that some order by last use puts first stay, as many as the limit allows, whatever the order of ties. |
| `Database.Database.TrimBytes` | src/common/db.rs:167-188 | The deletion loop stops with the most recent rows that fit the byte limit, and one more would not. |
| `Database.Database.Trim` | src/common/db.rs:160-190 | The tables become what trimming may leave, for any stamps: the longest prefix that fits both limits, of an order by last use in which ties within the count go by id; payloads go with their entries. |
| `Trimming.TrimFacts` | src/common/db.rs:160-190 | What trimming leaves is within both limits, no row left was used before one that went, and with distinct stamps it is one particular result. |
| `Trimming.TrimIsMaximal` | src/common/db.rs:180-187 | If anything went, bringing back the most recently used of what went would break a limit. |
| `Trimming.TwoCutsTrim` | src/common/db.rs:161-188 | Selecting by count in any tie order and then deleting the oldest until the bytes fit keeps the longest recency-ordered prefix that fits both limits. |
| `Trimming.FittingIsNotTrimmed` | src/common/db.rs:160-190 | A table within its limits is left as it is, whatever the stamps. |
| `Trimming.TrimsCompose` | src/common/db.rs:50-54 | Trimming the tables under one pair of limits and then another is a trim under the tighter of each, for any stamps and however ties are broken each time. |
| `Trimming.OlderOfATieGoesFirst` | src/common/db.rs:173-176 | Of rows used at the same instant, the bytes take the one with the smaller id first. |
| `Database.Database.Insert` | src/common/db.rs:91-158 | The id answered is the old one exactly when the hash was stored, and otherwise above all before; whatever trimming leaves under the hash has that id and says what was inserted; a new row was created now and has the given payloads, a known one keeps its creation time and payloads; and the tables are what trimming may leave, for any stamps. |
| `Database.Database.TouchLastUsed` | src/common/db.rs:287-293 | Only the time of last use changes, and nothing is trimmed. |
| `Database.Database.Delete` | src/common/db.rs:295-300 | The entry and its payloads go; the answer says whether it was there. |
| `Database.Database.Clear` | src/common/db.rs:302-303 | Both tables are emptied; the counters stay. |
| `Database.Database.SetLimits` | src/common/db.rs:50-54 | The tables are what trimming under the new limits may leave, for any stamps. |
| `Database.Database.List` | src/common/db.rs:200-206 | The first rows, at most the limit, of an order by last use. |
| `Database.Database.GetHash` | src/common/db.rs:267-273 | The hash of the entry, or none. |
| `Database.Database.GetRawPayloads` | src/common/db.rs:275-285 | The scan returns the payloads of exactly the rows that name the entry, in the order of their ids. |
| `Refinement.RunKeepsWellFormed` | src/common/db.rs:61-77 | Over all runs of insert, touch, delete, clear and limit changes, with any stamps and any choice among ties: ids and hashes are unique, ids come from the counter, and every payload row belongs to a live entry. |
| `Refinement.ReplayIsARun` | src/common/db.rs:160-190 | Every run has an outcome: breaking all ties by id is one of the ways SQL may. |
| `Refinement.IdsNeverReused` | src/common/db.rs:61-77 | Over all those runs, an id once given out never names another entry, and its hash, creation time and payloads never change. |
| `Refinement.StoredPayloads` | src/common/db.rs:149-154 | The payloads read back for a new entry are those it was given. |
| `Refinement.InsertedRow` | src/common/db.rs:91-158 | After an insert and any trim, the row with that hash has the id answered, the hash, kind, label, preview and size given, and the new stamp; a new one the payloads given, too. |
| `Refinement.RankedTrimmed` | src/common/db.rs:160-190 | Trimming the tables is taking the fitting prefix of the recency list. |
| `Refinement.StoredPromotes` | src/common/db.rs:91-154 | Inserting, old hash or new, moves the entry to the front of the recency list, with the size it now has. |
| `Refinement.TouchedPromotes` | src/common/db.rs:287-293 | Touching moves the entry to the front of the recency list. |
| `Unbounded.MruIsByLastUse` | src/common/db.rs:200-206 | The unbounded list names each hash ever used and not forgotten since, once, with what was last used under it, later last uses first. |
| `Clock.ClockedRunIsReplay` | src/common/db.rs:160-190 | With ascending stamps a run of any statements has one outcome, with all stamps different. |
| `LruTheorem.BoundedHistoryIsFittingPrefix` | src/common/db.rs:91-190 | After any run of inserts, touches and limits that only tighten, in which nothing shrinks under its hash, the table is the longest prefix of the unbounded most-recently-used list that fits, and listing shows its first entries, although evicted entries were forgotten. |
| `LruTheorem.HistoryIsAlwaysAPrefix` | src/common/db.rs:50-303 | After any run of inserts, touches, deletes, clears and changes of limits, with any sizes, the table is a prefix of the unbounded list within the limits in force, and the longest such prefix exactly when nothing is missing or the next entry of the unbounded list would not fit. |
| `LruTheorem.InsertSurvivesIff` | src/common/db.rs:156-188 | An insert with the latest stamp survives its own trim exactly when its size is within the byte limit and entries are allowed, whatever the other stamps; a larger one empties the store. |
| `LruTheorem.SurvivesTrimIff` | src/common/db.rs:160-190 | With any stamps, a row survives exactly when it and the rows before it in the order fit. |
| `LruTheorem.TrimMeetsConfiguredLimitsIff` | src/common/db.rs:165-172 | In any order, as many rows are kept as the configured limits allow exactly when the byte limit is below 2^63, or nothing could be kept under the configured limits either. |
| `LruTheorem.HugeByteLimitEmpties` | src/common/db.rs:172-187 | With a byte limit of 2^63 or more, every trim empties both tables. |
| `LruTheorem.RaisedLimitsMatchIff` | src/common/db.rs:50-54 | After limits are changed in any way, trimming matches the full history exactly when nothing had been evicted, or the entry evicted last does not fit the new limits either. |
| `Restore.RestoreState.Find` | src/daemon/restore.rs:152 | A request is served by the first payload with that name, none only if no payload has it. |
| `Restore.RestoreState.Handle` | src/daemon/restore.rs:148-167 | A request gets all the data under its name, or none, on its own pipe, which is then closed; any other event ends the restore. |
| `Restore.RestoreState.Serve` | src/daemon/restore.rs:222-224 | The loop serves the requests before the first event that ends the restore, and ends exactly if there is one. |
| `Watcher.MoreTypesMoreSpecific` | src/common/types.rs:46-75 | In the order file, image, link, text, other: offering further types never makes an entry's kind less specific. |
| `Watcher.KindIff` | src/common/types.rs:46-75 | Each kind, exactly, by the names offered: a file when a file manager's marker or a link list beside one of its other names is there; else an image when a name begins with "image/"; else a link for "text/uri-list"; else text when a name begins with "text/"; else other. |
| `Watcher.KindOfSet` | src/common/types.rs:46-75 | The kind depends only on the set of names. |
| `Watcher.ProcessReady` | src/daemon/watcher.rs:443-502 | Nothing captured changes nothing; a suppressed capture leaves the store alone; any other is stored as the entry its canonical payloads determine, and the tables are trimmed, for any stamps: the row left with its hash has the id reported, the kind of its names, the library's label for that kind and those payloads as label and preview, and their length as size. |
| `Server.DispatchRestore` | src/daemon/server.rs:229-274 | An unknown id changes nothing; a known one is touched, its hash armed, and exactly its stored payloads are offered. |
| `Echo.ReceivedIsCapturable` | src/daemon/watcher.rs:443-470 | Whatever is captured is canonical, non-empty, within the cap, and free of skipped and marked types, faults or not. |
| `Echo.EchoIsReady` | src/daemon/restore.rs:215-219 | Whatever the watcher saw before, and in whatever order and between whatever other events the stored types were announced, selecting the restored offer makes exactly the stored types ready, each once. |
| `Echo.StillAnnounces` | src/daemon/watcher.rs:161-216 | Events of other offers, and repeated types, do not change what is announced. |
| `Echo.AnnouncementAnnounces` | src/daemon/restore.rs:215-219 | An announcement in one piece announces the stored types. |
| `Echo.EchoIsCaptured` | src/daemon/restore.rs:148-161 | Asked for in any order, served by first match in any order of requests, drained, and normalised, the offer yields exactly the stored payloads. |
| `Echo.EchoUnderAnySchedule` | src/daemon/restore.rs:148-161 | The same on every schedule of the pipes, and so the same hash. |
| `Echo.FaultyEchoIff` | src/daemon/restore.rs:148-161 | With failed reads or writes, an echo read to its end holds a beginning of each stored payload, and is captured as what was stored exactly when none was cut short, as when every write was whole and no read failed. |
| `StoreInvariant.InsertKnownIsTouch` | src/common/db.rs:104-113 | Inserting payloads whose hash is stored keeps the id, and is a touch that changes and evicts nothing else exactly when kind, label, preview and size of the row are those of the payloads; whatever the stamps and whether or not hashes collide. |
| `ProtocolTheorems.StepKeepsInv` | src/daemon/server.rs:229-274 | Every lock-protected step of server, restoring threads and watcher keeps the protocol invariant, whatever the wall clock says to it and whether or not hashes collide. |
| `ProtocolTheorems.HistoryStaysSound` | src/daemon/watcher.rs:468-502 | Over every interleaving, collisions or not: no two entries share a hash or an id, each row's hash is that of its payloads and the row describes some capture with that hash, the limits hold, and suppressions never outnumber arms. |
| `ProtocolTheorems.RowsDescribeTheirPayloads` | src/daemon/watcher.rs:468-502 | Where no two lists that occur share a hash, every row describes the payloads stored for it; its size is their total length. |
| `ProtocolTheorems.EchoIsHarmless` | src/daemon/watcher.rs:478-496 | Over every interleaving, a capture whose hash is stored leaves the store alone when suppressed, and when not, only touches that entry exactly if its row agrees with the payloads, as it does without collisions. |
| `ProtocolTheorems.EchoCarriesItsEntry` | src/daemon/server.rs:255-271 | An echo in the watcher's hands has the restored payloads and the hash its restore armed before it was offered; and while the restored entry is stored, these are that entry's. |
| `ProtocolTheorems.EchoSuppressedIff` | src/daemon/suppress.rs:28-47 | Its own restore has armed before an echo asks; the echo is suppressed exactly when the latest arm, its own or a later restore's, is for the same hash, has not expired and has not been spent on an earlier capture. |
| `ProtocolTheorems.NulFreePayloadsAreCollisionFree` | src/daemon/watcher.rs:266-279 | The hypothesis that no two lists that occur share a hash is met by a collision-free digest on NUL-free payloads. |
| `ProtocolTheorems.OpenEnvironmentsCollide` | src/daemon/watcher.rs:266-279 | It is met by no digest where two formats and their run-together may both be offered. |
| `ProtocolHistory.StoreRuns` | src/daemon/server.rs:229-274 | On the store, every interleaving is a run of statements. |
| `ProtocolHistory.StoreIsPrefixOfMemory` | src/common/db.rs:91-190 | If stamps come in the order of the statements, then after any interleaving the table is a prefix of everything captured and restored and not deleted since, most recently used first, within the limits; and it is the longest exactly when nothing is missing or the next entry would not fit. |
| `ProtocolHistory.OverwrittenRow` | src/common/db.rs:104-113 | Capturing two formats and then the two run together leaves one row that says 5 bytes over the payloads of 2 bytes it keeps. |
| `Daemon.Restore` | src/daemon/server.rs:229-274 | The restore request is the steps lookup, arm and spawn in this order, or nothing for an unknown id. |
| `Daemon.CaptureEcho` | src/daemon/watcher.rs:391-502 | From the compositor's announcement of a restored offer to the store: the watcher's code takes the steps see the echo, ask, and keep unless suppressed. |
| `Daemon.CaptureOther` | src/daemon/watcher.rs:391-502 | Likewise for any offer and any faults: see, ask, keep, or nothing if nothing was captured. |
| `Daemon.EchoLeavesHistory` | src/daemon/watcher.rs:478-496 | End to end: after any interleaving of restores, captures, deletions and reloads, reading the offer of a restored entry that is still stored leaves the tables as they are if suppressed, and otherwise only touches that entry exactly if its row agrees with its payloads, as it does without collisions; no entry's hash, creation time or payloads change in any case. |
| `Percent.FileUriPath` | src/daemon/server.rs:93-104 | The loop computes the encoding. |
| `Percent.PercentDecode` | src/common/types.rs:167-185 | The loop computes the decoding, with the escapes `from_str_radix` accepts. |
| `Percent.DecodeInvertsEncode` | src/common/types.rs:167-185 | Decoding undoes encoding for every UTF-8 path. |
| `Percent.EncodeInjective` | src/daemon/server.rs:93-104 | Different paths have different encodings. |
| `Percent.EncodeIsUriPath` | src/daemon/server.rs:93-104 | The output is '/', unreserved characters (section 2.3 of RFC 3986) and upper-case percent triplets (section 2.1). |
| `Percent.PlainPathsStay` | src/daemon/server.rs:93-104 | A path of unreserved characters and slashes is its own encoding. |
| `Percent.OthersAreEscaped` | src/daemon/server.rs:93-104 | Any other byte becomes a percent sign and its two upper-case digits. |
| `Percent.EncodeIsShortest` | src/daemon/server.rs:93-104 | Nothing is escaped needlessly: no such text that decodes to the path is shorter. |
| `Percent.TripletIsDecoded` | src/common/types.rs:167-185 | A percent sign and two hexadecimal digits of either case stand for one byte. |
| `Percent.PlusIsDecoded` | src/common/types.rs:167-185 | So do a plus sign and one digit after a percent sign, which `from_str_radix` accepts. |
| `Percent.OthersStandForThemselves` | src/common/types.rs:167-185 | Everything else stands for itself, a percent sign without two digits too. |
| `Percent.Utf8Iff` | src/common/types.rs:184 | The texts said to be UTF-8 are exactly the sequences of characters, written as section 3 of RFC 3629 says. |
| `UriLabel.FileNameOfPath` | src/common/types.rs:99-102 | The file name of a normalised path is its last component. |
| `UriLabel.FileNameIs` | src/common/types.rs:99-102 | Whatever the directory, the name after the last slash is the file name. |
| `UriLabel.FileNameIgnoresEnd` | src/common/types.rs:99-102 | A slash at the end, and a dot after one, make no difference. |
| `UriLabel.NoFileName` | src/common/types.rs:99-102 | The root, nothing, and what ends in ".." have no file name. |
| `UriLabel.LinesOfText` | src/common/types.rs:90-93 | Lines end in a line feed, with or without a carriage return before it, and a last line need not end. |
| `UriLabel.TextHasLines` | src/common/types.rs:90-93 | Every text is made of such lines, so that says what the lines of any text are. |
| `UriLabel.SchemeIsDropped` | src/common/types.rs:98 | The scheme is dropped as often as it is repeated, at the front only. |
| `UriLabel.NameOfWebLink` | src/common/types.rs:98-103 | A link of another scheme, without escapes, is named by what follows its last slash. |
| `UriLabel.NameOfNameless` | src/common/types.rs:99-103 | A link to a path without a file name is shown as that path. |
| `UriLabel.LabelOfLinks` | src/common/types.rs:87-116 | With blank lines and comments anywhere and lines ended either way, or the last not at all, the label is the name of the first link and the number of the others, or "file" if there is none. |
| `UriLabel.LabelOfText` | src/common/types.rs:87-116 | If those links are links to paths, the first name is its path's last component, whatever characters it contains. |
| `UriLabel.LabelWithoutLinks` | src/common/types.rs:87-119 | Without a "text/uri-list" type the label is "file". |
| `UriLabel.LinesOfUriList` | src/common/types.rs:89-93 | Reading a list of links back line by line gives the links. |
| `UriLabel.LabelInvertsLinks` | src/common/types.rs:87-116 | In particular, of a list of links as the daemon writes it. |
| `SizeText.ParseSizeIff` | src/common/config.rs:114-139 | A text is accepted with a value exactly when, normalised, it is a number and a suffix whose product is that value, from 1 to 2^64 - 1. |
| `SizeText.PrintedUnitIsLargest` | src/common/config.rs:141-150 | The printed unit divides the size and no larger one does. |
| `SizeText.PrintedAs` | src/common/config.rs:141-154 | A size is printed in GiB, MiB, KiB or B, the first that divides it. |
| `SizeText.ParseInvertsFormat` | src/common/config.rs:141-154 | Every size from 1 to 2^64 - 1 survives printing and parsing. |
| `SizeText.AcceptedSizesReparse` | src/common/config.rs:114-154 | What was accepted prints to something accepted with the same value. |
| `SizeText.CaseIsIgnored` | src/common/config.rs:115 | Texts that differ only in the case of letters read alike. |
| `SizeText.SpacesAreIgnored` | src/common/config.rs:115 | Spaces may stand anywhere. |
| `SizeText.WhiteSpaceAround` | src/common/config.rs:115 | White space of any kind may stand before and after. |
| `SizeText.NothingElseIsIgnored` | src/common/config.rs:115 | Otherwise nothing is left out: a text in lower case without spaces, and without white space at its ends, is read as it is. |
| `SizeText.ShortSuffixes` | src/common/config.rs:116-128 | A text ending in "gb", "mb" or "kb" reads as the same text ending in "gib", "mib" or "kib". |
| `SizeText.BareMeansBytes` | src/common/config.rs:124-128 | A number alone reads as the number with "b", and is that many bytes. |
| `SizeText.ParseSizeErrors` | src/common/config.rs:129-138 | Each error, exactly: no reading as number and suffix, a product of 2^64 or more, a product of zero. |
| `Numbers.ParseU64Iff` | src/common/config.rs:129-131 | The numbers read are exactly those below 2^64 written as digits, perhaps after a plus sign. |
| `Numbers.DecimalStep` | src/common/config.rs:147 | A number is printed in decimal: with one more digit at its end, ten times as much and the digit. |
| `Numbers.ValueStep` | src/common/config.rs:129-131 | Likewise read. |
| `SizeText.SuffixValues` | src/common/config.rs:116-124 | The suffixes multiply by 1024 to the power of 3, 2, 1 or 0. |
| `SizeText.LimitsAcceptedIff` | src/common/config.rs:34-42 | A configuration with a printed size is accepted exactly when it allows at least one entry. |
| `Timestamps.FractionOrder` | src/common/db.rs:101 | Fractions of 0, 3, 6 or 9 digits followed by the offset sort as the nanoseconds they stand for. |
| `Timestamps.TextOrderIsTimeOrder` | src/common/db.rs:163 | The byte order of the stored stamps is chronological, though their lengths differ. |
| `Timestamps.TextReadsBack` | src/common/db.rs:101 | Every field of the instant stands in the text where section 5.6 of RFC 3339 has it, and can be read back. |
| `Timestamps.FractionReadsBack` | src/common/db.rs:101 | The fraction has as few of 0, 3, 6 or 9 digits as say the nanoseconds. |

## Left out

- Wayland connection, registry and seat binding, destruction of offers and flush errors: foreign calls. The events themselves are the input of `Offers`.
- Failure to create a pipe for one of the types (src/daemon/watcher.rs:410-424), which only shortens the list of types read.
- Real file descriptors and `fcntl`: a pipe is a bounded queue of bytes with a closed flag; the source is one thread that runs one script.
- SQLite beyond the statements: WAL, VACUUM, indexes, permissions, errors inside a statement, and overflow of `SUM(size)`; sizes are natural numbers.
- The legacy schema and its migration, whose payload table may lack the cascade.
- Decoding stored stamps and kinds when listing (src/common/db.rs:222-244), and base64 in `get_payloads`.
- The Text and Image arms of `build_label` and image sizes: labels are an arbitrary function in the restore theorems. The Text arm slices at byte 120 and is not total.
- `screenshot_payloads`: file access; its link is the one `UriLabel` reads back, and its offer is an unarmed capture in `Protocol`.
- `bind_listener`, the client connections, other requests, the CLI, the configuration file, the environment, logging, signals and reconnecting: plumbing.
- `Database::open` on an existing file: it loads limits without trimming, so runs start from an empty store.
- HashInput.HashedUniquelyIff: for entries of two or more formats so close to the cap that no later name with two NULs fits in as data, only `HashInput.CutInsideCollides` and `HashInput.NulFreePairUniqueIff` say something; in general some other reading of the whole stream would have to be searched for.
- Watcher.ProcessReady: takes its two clocks as parameters, and models one call; the interleaving of its locks is in `Protocol`, and `Daemon` shows that the call is a run of it.
