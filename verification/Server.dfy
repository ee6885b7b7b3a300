/** The server's side of a restore. */
module Server {
  import opened Prelude
  import Tables
  import Database
  import Suppress

  datatype Response = Done | NoEntry

  /** Looks the entry up and touches it under the store's lock, then arms the suppression slot, and
      only then hands its payloads to the thread that will offer them. */
  method DispatchRestore(db: Database.Database, suppress: Suppress.SuppressState, id: nat, now: int, instant: int)
      returns (response: Response, offered: Option<seq<Payload>>)
    requires db.Valid()
    modifies db, suppress
    ensures db.Valid()
    ensures response.Done? <==> id in Tables.Ids(old(db.entries))
    ensures response.Done? ==>
              && db.Contents() == Tables.Touched(old(db.Contents()), id, now)
              && offered == Some(Tables.PayloadsOf(old(db.payloads), id))
              && exists r :: r in old(db.entries) && r.id == id
                   && suppress.pending == Suppress.CellAfter(old(suppress.pending), Suppress.Arm(r.hash, instant))
    ensures response.NoEntry? ==>
              offered.None? && db.Contents() == old(db.Contents()) && suppress.pending == old(suppress.pending)
  {
    var hash := db.GetHash(id);
    if hash.None? {
      return NoEntry, None;
    }
    var payloads := db.GetRawPayloads(id);
    db.TouchLastUsed(id, now);
    suppress.ArmAt(hash.value, instant);
    return Done, Some(payloads);
  }
}
