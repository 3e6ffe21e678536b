/** The outcome of one dispatched request (src/process/process_result.rs). */
module ProcessResult {
  import opened Models
  import Database

  /** PAM's error, kept abstract. */
  datatype PamError = PamError(reason: string)

  /** A failed dispatch: the store failed, or the login check rejected. */
  datatype ProError = DbError(db: Database.StoreError) | IdentityError(pam: PamError)

  /** A successful dispatch: an acknowledgement, the listing of all rows,
      or the dead-link report as `(id, is_dead)` pairs. */
  datatype ProOk = Ack | Info(accounts: seq<WebsiteAccount>) | DeadLink(links: seq<(i32, bool)>)
}
