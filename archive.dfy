/**
 * The top-level run: fetch both directories, collect the candidates page by
 * page, process them, then print `DONE`. A failed directory or page request
 * is not caught and ends the run before any file is touched. A failure while
 * processing is caught inside `deleteFiles`, so `DONE` is still reached,
 * except when the first item popped has no folder: that throw escapes
 * `deleteFiles` and ends the run without `DONE`.
 */
module Archive {
  import opened Directory
  import opened Descriptors
  import opened Paging
  import opened Processing

  /** The service's answer to `users.list` or `channels.list`. */
  datatype DirResponse = Entries(entries: seq<DirEntry>) | ListFailed

  /**
   * How the run ends. `Done` is the `DONE` line, with the candidates, the
   * number of pages requested and the processor's output; `ProcessingThrew`
   * is a run whose processor threw before it could catch anything.
   * `TraceTooShort`: the page trace ran out before the paginator stopped.
   */
  datatype RunOutcome =
    | Done(candidates: seq<Descriptor>, pages: nat, log: seq<Event>)
    | DirectoryFailed
    | PageRequestFailed(page: nat)
    | ProcessingThrew(candidates: seq<Descriptor>, pages: nat)
    | TraceTooShort

  method RunArchive(
    usersResp: DirResponse, channelsResp: DirResponse, responses: seq<Response>,
    iso: int -> string, runDelete: bool, fault: nat -> Fault)
    returns (outcome: RunOutcome)
    ensures outcome.DirectoryFailed? <==> usersResp.ListFailed? || channelsResp.ListFailed?
    ensures usersResp.Entries? && channelsResp.Entries? ==>
      var ctx := Context(DirectoryOf(usersResp.entries), DirectoryOf(channelsResp.entries), iso);
      && (outcome.Done? || outcome.ProcessingThrew? ==>
            && CollectsAt(responses, outcome.pages, ctx)
            && outcome.candidates == Accumulated(responses, outcome.pages, ctx))
      && (forall n | CollectsAt(responses, n, ctx) ::
            (outcome.Done? || outcome.ProcessingThrew?) && outcome.pages == n)
      && (outcome.PageRequestFailed? ==>
            && 1 <= outcome.page <= |responses|
            && responses[outcome.page - 1].RequestFailed?
            && forall m | 1 <= m < outcome.page :: Continued(responses, m, ctx))
      && (outcome.TraceTooShort? ==> forall n | 1 <= n <= |responses| :: Continued(responses, n, ctx))
    ensures outcome.Done? ==> Report(outcome.candidates, runDelete, fault) == Resolved(outcome.log)
    ensures outcome.ProcessingThrew? ==>
      && Report(outcome.candidates, runDelete, fault) == Threw
      && outcome.candidates != [] && outcome.candidates[|outcome.candidates| - 1].folder.None?
  {
    if usersResp.ListFailed? || channelsResp.ListFailed? {
      return DirectoryFailed;
    }
    var users := BuildDirectory(usersResp.entries);
    var channels := BuildDirectory(channelsResp.entries);
    var ctx := Context(users, channels, iso);
    var fetched, requests := GetFiles(responses, ctx);
    OutcomeDecides(responses, ctx, fetched, |requests|);
    match fetched
    case PageFailed(page) =>
      outcome := PageRequestFailed(page);
    case OutOfTrace =>
      outcome := TraceTooShort;
    case Collected(candidates) =>
      var settled := ProcessCandidates(candidates, runDelete, fault);
      match settled
      case Resolved(log) =>
        outcome := Done(candidates, |requests|, log);
      case Threw =>
        // the processor's synchronous throw is not caught, so `DONE` is never printed
        outcome := ProcessingThrew(candidates, |requests|);
  }

  /** `.then(deleteFiles)`: hand the collected candidates to the processor as a fresh array. */
  method ProcessCandidates(candidates: seq<Descriptor>, runDelete: bool, fault: nat -> Fault) returns (settled: Settled)
    ensures settled == Report(candidates, runDelete, fault)
    ensures settled.Threw? <==> candidates != [] && candidates[|candidates| - 1].folder.None?
  {
    var files := new Descriptor[|candidates|](i requires 0 <= i < |candidates| => candidates[i]);
    assert files[..] == candidates;
    settled := DeleteFiles(files, runDelete, fault);
  }

}
