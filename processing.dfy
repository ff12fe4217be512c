/**
 * The sequential processor (`deleteFiles`/`deleteFile`): copy the candidate
 * list, pop items from the end one at a time, and for each report it and, in
 * run-delete mode, ensure its folder, download it and delete it remotely. The
 * first failure stops the chain; it is caught once, at the top, unless it is
 * thrown by the very first item before the catch is attached.
 */
module Processing {
  import opened Wrappers
  import opened Descriptors

  /** Which I/O step of an item fails, as decided by the environment. */
  datatype Fault = NoFault | DirFault | DownloadFault | DeleteFault

  /**
   * Why an item's chain failed: `path.join` threw on a missing (`undefined`)
   * folder, or one of the I/O steps failed.
   */
  datatype Cause = PathError | StepFailed(fault: Fault)

  /** A failure: the processing position of the item and its cause. */
  datatype Failure = Failure(item: nat, cause: Cause)

  /** The observable effects, in the order they happen. */
  datatype Event =
    | Announce(file: Descriptor)   // "Downloading `filename` from `folder`"
    | EnsureDir(folder: string)     // fs.ensureDir on the destination folder
    | Download(file: Descriptor)   // the GET of the permalink, piped to the file
    | DownloadComplete              // "Download complete!"
    | Delete(id: string)            // the files.delete call
    | Whoopsie(failure: Failure)    // the error caught by deleteFiles

  /** The effects of one item and the error its chain ended with, if any. */
  datatype Step = Step(events: seq<Event>, error: Option<Cause>)

  /** What the drained chain did, and the failure that stopped it, if any. */
  datatype Drained = Drained(log: seq<Event>, failure: Option<Failure>)

  /** How `deleteFiles` ends: it resolves with its output, or a synchronous throw escapes it. */
  datatype Settled = Resolved(log: seq<Event>) | Threw

  /** An item's chain succeeds: its folder is known and, in run-delete mode, no step fails. */
  predicate ItemOk(d: Descriptor, runDelete: bool, f: Fault)
  {
    d.folder.Some? && (!runDelete || f == NoFault)
  }

  /**
   * `deleteFile`, with the download step resolving only once the transfer has
   * ended (see DeleteFileAsWritten for the source's own wiring). `path.join`
   * comes first and throws on a missing folder, before anything is reported;
   * otherwise announce; in a dry run stop there; otherwise folder, download,
   * delete, each only after the previous one succeeded.
   */
  function DeleteFile(d: Descriptor, runDelete: bool, f: Fault): (s: Step)
    ensures s.error.None? <==> ItemOk(d, runDelete, f)
    ensures s.error.Some? ==> s.error.value == if d.folder.None? then PathError else StepFailed(f)
    ensures d.folder.None? ==> s.events == []
    ensures d.folder.Some? ==> |s.events| >= 1 && s.events[0] == Announce(d)
    ensures d.folder.Some? && !runDelete ==> s.events == [Announce(d)]
  {
    match d.folder
    case None => Step([], Some(PathError))
    case Some(folder) =>
      var announce := [Announce(d)];
      if !runDelete then Step(announce, None)
      else if f == DirFault then Step(announce + [EnsureDir(folder)], Some(StepFailed(f)))
      else if f == DownloadFault then Step(announce + [EnsureDir(folder), Download(d)], Some(StepFailed(f)))
      else
        var all := announce + [EnsureDir(folder), Download(d), DownloadComplete, Delete(d.id)];
        Step(all, if f == NoFault then None else Some(StepFailed(f)))
  }

  /**
   * The sequencing inside one item: the delete is issued exactly when the folder
   * and download steps succeeded, and only after them; a failing step is the
   * last one issued; only the first event reports the item.
   */
  lemma DeleteFileSequencing(d: Descriptor, runDelete: bool, f: Fault)
    ensures var s := DeleteFile(d, runDelete, f);
      && ((Delete(d.id) in s.events) <==> d.folder.Some? && runDelete && (f == NoFault || f == DeleteFault))
      && (forall p | 0 <= p < |s.events| && s.events[p].Delete? ::
            d.folder.Some? && p == 4 &&
            s.events[..4] == [Announce(d), EnsureDir(d.folder.value), Download(d), DownloadComplete])
      && (forall p | 0 < p < |s.events| :: !s.events[p].Announce? && !s.events[p].Whoopsie?)
      && (d.folder.Some? && runDelete && f == DirFault ==> s.events[|s.events| - 1] == EnsureDir(d.folder.value))
      && (d.folder.Some? && runDelete && f == DownloadFault ==> s.events[|s.events| - 1] == Download(d))
      && (d.folder.Some? && runDelete && f == DeleteFault ==> s.events[|s.events| - 1] == Delete(d.id))
  {
    var s := DeleteFile(d, runDelete, f);
    if d.folder.Some? && runDelete && (f == NoFault || f == DeleteFault) {
      assert s.events[4] == Delete(d.id);
    }
  }

  /**
   * `deleteFile` as written: `.on('close', res())` calls `res()` at once, so the
   * download promise resolves before the transfer ends and a later write error
   * is dropped. A failing download therefore never stops the chain.
   */
  function DeleteFileAsWritten(d: Descriptor, runDelete: bool, f: Fault): (s: Step)
    ensures d.folder.None? ==> s == Step([], Some(PathError))
    ensures d.folder.Some? ==> |s.events| >= 1 && s.events[0] == Announce(d)
    ensures d.folder.Some? ==> (s.error.None? <==> !runDelete || (f != DirFault && f != DeleteFault))
  {
    match d.folder
    case None => Step([], Some(PathError))
    case Some(folder) =>
      var announce := [Announce(d)];
      if !runDelete then Step(announce, None)
      else if f == DirFault then Step(announce + [EnsureDir(folder)], Some(StepFailed(f)))
      else
        var all := announce + [EnsureDir(folder), Download(d), DownloadComplete, Delete(d.id)];
        Step(all, if f == DeleteFault then Some(StepFailed(f)) else None)
  }

  /** The discrepancy: as written, a failed download is followed by the remote delete and the chain goes on. */
  lemma AsWrittenDeletesAfterFailedDownload(d: Descriptor)
    requires d.folder.Some?
    ensures Delete(d.id) in DeleteFileAsWritten(d, true, DownloadFault).events
    ensures DeleteFileAsWritten(d, true, DownloadFault).error.None?
    ensures Delete(d.id) !in DeleteFile(d, true, DownloadFault).events
    ensures DeleteFile(d, true, DownloadFault).error == Some(StepFailed(DownloadFault))
  {
    assert DeleteFileAsWritten(d, true, DownloadFault).events[4] == Delete(d.id);
  }

  /** The two agree whenever the download itself succeeds. */
  lemma AsWrittenAgreesWithoutDownloadFault(d: Descriptor, runDelete: bool, f: Fault)
    requires f != DownloadFault
    ensures DeleteFileAsWritten(d, runDelete, f) == DeleteFile(d, runDelete, f)
  {
  }

  /** The last element first: the order in which `pop()` hands out the items. */
  function Reversed<T>(s: seq<T>): (r: seq<T>)
    ensures |r| == |s|
  {
    if s == [] then [] else [s[|s| - 1]] + Reversed(s[..|s| - 1])
  }

  /** The popping order outright: position i of the reversal holds the element i places from the end. */
  lemma {:induction false} ReversedAt<T>(s: seq<T>)
    ensures forall i | 0 <= i < |s| :: Reversed(s)[i] == s[|s| - 1 - i]
    decreases |s|
  {
    if s != [] {
      var init := s[..|s| - 1];
      var r := Reversed(init);
      ReversedAt(init);
      assert Reversed(s) == [s[|s| - 1]] + r;
      forall i | 0 <= i < |s| ensures Reversed(s)[i] == s[|s| - 1 - i] {
        if i > 0 {
          assert Reversed(s)[i] == r[i - 1] == init[|init| - 1 - (i - 1)];
        }
      }
    }
  }

  /**
   * `next()`: pop the last pending item, run its chain, and go on with the rest
   * only if it resolved. `k` is the number of items handled before.
   */
  function Drain(pending: seq<Descriptor>, runDelete: bool, fault: nat -> Fault, k: nat): Drained
    decreases |pending|
  {
    if pending == [] then Drained([], None)
    else
      var s := DeleteFile(pending[|pending| - 1], runDelete, fault(k));
      match s.error
      case Some(cause) => Drained(s.events, Some(Failure(k, cause)))
      case None =>
        var rest := Drain(pending[..|pending| - 1], runDelete, fault, k + 1);
        Drained(s.events + rest.log, rest.failure)
  }

  /** One step of `next()`, unfolded. */
  lemma DrainStep(pending: seq<Descriptor>, runDelete: bool, fault: nat -> Fault, k: nat)
    requires pending != []
    ensures var s := DeleteFile(pending[|pending| - 1], runDelete, fault(k));
      var rest := Drain(pending[..|pending| - 1], runDelete, fault, k + 1);
      Drain(pending, runDelete, fault, k) ==
        match s.error
        case Some(cause) => Drained(s.events, Some(Failure(k, cause)))
        case None => Drained(s.events + rest.log, rest.failure)
  {
  }

  /** The effects of handling the given items in the given order, item i with oracle position k + i. */
  function Steps(items: seq<Descriptor>, runDelete: bool, fault: nat -> Fault, k: nat): seq<Event>
    decreases |items|
  {
    if items == [] then []
    else DeleteFile(items[0], runDelete, fault(k)).events + Steps(items[1..], runDelete, fault, k + 1)
  }

  /**
   * `deleteFiles`' outcome. The first call of `next()` runs before `.catch` is
   * attached, so a throw from the first item escapes; any later failure is a
   * rejection, caught and reported once.
   */
  function Report(files: seq<Descriptor>, runDelete: bool, fault: nat -> Fault): Settled
  {
    var r := Drain(files, runDelete, fault, 0);
    match r.failure
    case None => Resolved(r.log)
    case Some(failure) =>
      if failure == Failure(0, PathError) then Threw else Resolved(r.log + [Whoopsie(failure)])
  }

  /** A failure reported by the chain started at position k lies at position k or later. */
  lemma {:induction false} DrainFailureAfter(pending: seq<Descriptor>, runDelete: bool, fault: nat -> Fault, k: nat)
    ensures Drain(pending, runDelete, fault, k).failure.Some? ==> Drain(pending, runDelete, fault, k).failure.value.item >= k
    decreases |pending|
  {
    if pending != [] {
      DrainFailureAfter(pending[..|pending| - 1], runDelete, fault, k + 1);
    }
  }

  /** `deleteFiles` throws exactly when the first item it pops, the last in the list, has no folder. */
  lemma ReportThrows(files: seq<Descriptor>, runDelete: bool, fault: nat -> Fault)
    ensures Report(files, runDelete, fault).Threw? <==> files != [] && files[|files| - 1].folder.None?
  {
    if files != [] {
      DrainStep(files, runDelete, fault, 0);
      DrainFailureAfter(files[..|files| - 1], runDelete, fault, 1);
    }
  }

  /** A caught error is reported once, as the last event of the output. */
  lemma ReportWhoopsieLast(files: seq<Descriptor>, runDelete: bool, fault: nat -> Fault)
    ensures Report(files, runDelete, fault).Resolved? ==>
      var log := Report(files, runDelete, fault).log;
      forall p | 0 <= p < |log| && log[p].Whoopsie? :: p == |log| - 1
  {
    DrainHasNoWhoopsie(files, runDelete, fault, 0);
  }

  /**
   * Run to the end: when every item's chain succeeds, the log is each item's
   * effects, last item first, and no failure is reported.
   */
  lemma {:induction false} DrainCompletes(pending: seq<Descriptor>, runDelete: bool, fault: nat -> Fault, k: nat)
    requires forall i | 0 <= i < |pending| :: ItemOk(Reversed(pending)[i], runDelete, fault(k + i))
    ensures Drain(pending, runDelete, fault, k) == Drained(Steps(Reversed(pending), runDelete, fault, k), None)
    decreases |pending|
  {
    if pending != [] {
      var init := pending[..|pending| - 1];
      var d := pending[|pending| - 1];
      var rev := Reversed(pending);
      assert rev[0] == d && rev[1..] == Reversed(init);
      assert ItemOk(rev[0], runDelete, fault(k + 0));
      forall i | 0 <= i < |init| ensures ItemOk(Reversed(init)[i], runDelete, fault(k + 1 + i)) {
        assert rev[i + 1] == Reversed(init)[i];
        assert ItemOk(rev[i + 1], runDelete, fault(k + (i + 1)));
      }
      DrainCompletes(init, runDelete, fault, k + 1);
      DrainStep(pending, runDelete, fault, k);
    }
  }

  /**
   * Abort after the first failure: if the j-th item handled (counting from 0) is
   * the first whose chain fails, that failure is the one reported, and the log
   * is the effects of exactly the last j + 1 items, last to first: nothing at
   * all happens for the rest.
   */
  lemma {:induction false} DrainStopsAtFirstFailure(
    pending: seq<Descriptor>, runDelete: bool, fault: nat -> Fault, k: nat, j: nat)
    requires j < |pending|
    requires !ItemOk(Reversed(pending)[j], runDelete, fault(k + j))
    requires forall i | 0 <= i < j :: ItemOk(Reversed(pending)[i], runDelete, fault(k + i))
    ensures Drain(pending, runDelete, fault, k) ==
      Drained(
        Steps(Reversed(pending)[..j + 1], runDelete, fault, k),
        Some(Failure(k + j, if Reversed(pending)[j].folder.None? then PathError else StepFailed(fault(k + j)))))
    decreases |pending|
  {
    if j == 0 {
      StopsAtFirst(pending, runDelete, fault, k);
    } else {
      var init := pending[..|pending| - 1];
      OkShift(pending, init, runDelete, fault, k, j);
      DrainStopsAtFirstFailure(init, runDelete, fault, k + 1, j - 1);
      StopsLater(pending, runDelete, fault, k, j,
        if Reversed(pending)[j].folder.None? then PathError else StepFailed(fault(k + j)));
    }
  }

  /** Items that succeed at the front of the popping order still succeed once the first is popped. */
  lemma OkShift(pending: seq<Descriptor>, init: seq<Descriptor>, runDelete: bool, fault: nat -> Fault, k: nat, j: nat)
    requires 0 < j < |pending| && init == pending[..|pending| - 1]
    requires forall i | 0 <= i < j :: ItemOk(Reversed(pending)[i], runDelete, fault(k + i))
    ensures ItemOk(Reversed(pending)[0], runDelete, fault(k))
    ensures Reversed(pending)[j] == Reversed(init)[j - 1]
    ensures forall i | 0 <= i < j - 1 :: ItemOk(Reversed(init)[i], runDelete, fault(k + 1 + i))
  {
    var rev := Reversed(pending);
    assert rev[1..] == Reversed(init);
    assert ItemOk(rev[0], runDelete, fault(k + 0));
    forall i | 0 <= i < j - 1 ensures ItemOk(Reversed(init)[i], runDelete, fault(k + 1 + i)) {
      assert rev[i + 1] == Reversed(init)[i];
      assert ItemOk(rev[i + 1], runDelete, fault(k + (i + 1)));
    }
  }

  /** The base case of DrainStopsAtFirstFailure: the first item popped fails. */
  lemma StopsAtFirst(pending: seq<Descriptor>, runDelete: bool, fault: nat -> Fault, k: nat)
    requires pending != []
    requires !ItemOk(Reversed(pending)[0], runDelete, fault(k))
    ensures Drain(pending, runDelete, fault, k) ==
      Drained(
        Steps(Reversed(pending)[..1], runDelete, fault, k),
        Some(Failure(k, if Reversed(pending)[0].folder.None? then PathError else StepFailed(fault(k)))))
  {
    var rev := Reversed(pending);
    var s := DeleteFile(pending[|pending| - 1], runDelete, fault(k));
    assert rev[0] == pending[|pending| - 1];
    DrainStep(pending, runDelete, fault, k);
    StepsCons(rev[..1], runDelete, fault, k);
    assert rev[..1][1..] == [];
    assert Steps(rev[..1], runDelete, fault, k) == s.events + [];
  }

  /** The step case of DrainStopsAtFirstFailure: the first item popped succeeds and the rest stops at j - 1. */
  lemma StopsLater(pending: seq<Descriptor>, runDelete: bool, fault: nat -> Fault, k: nat, j: nat, cause: Cause)
    requires 0 < j < |pending|
    requires ItemOk(Reversed(pending)[0], runDelete, fault(k))
    requires Drain(pending[..|pending| - 1], runDelete, fault, k + 1) ==
      Drained(Steps(Reversed(pending[..|pending| - 1])[..j], runDelete, fault, k + 1), Some(Failure(k + j, cause)))
    ensures Drain(pending, runDelete, fault, k) ==
      Drained(Steps(Reversed(pending)[..j + 1], runDelete, fault, k), Some(Failure(k + j, cause)))
  {
    var init := pending[..|pending| - 1];
    var rev := Reversed(pending);
    assert rev[0] == pending[|pending| - 1] && rev[1..] == Reversed(init);
    DrainStep(pending, runDelete, fault, k);
    StepsCons(rev[..j + 1], runDelete, fault, k);
    assert rev[..j + 1][0] == rev[0] && rev[..j + 1][1..] == Reversed(init)[..j];
  }

  lemma StepsCons(items: seq<Descriptor>, runDelete: bool, fault: nat -> Fault, k: nat)
    requires items != []
    ensures Steps(items, runDelete, fault, k) ==
      DeleteFile(items[0], runDelete, fault(k)).events + Steps(items[1..], runDelete, fault, k + 1)
  {
  }

  /**
   * Dry run: nothing but reports happens (no folder, download or delete call),
   * and the only possible failure is a missing folder. When every folder is
   * known, every item is reported, last to first, and the chain does not fail.
   */
  lemma {:induction false} DrainDryRun(pending: seq<Descriptor>, fault: nat -> Fault, k: nat)
    ensures forall p | 0 <= p < |Drain(pending, false, fault, k).log| :: Drain(pending, false, fault, k).log[p].Announce?
    ensures Drain(pending, false, fault, k).failure.Some? ==> Drain(pending, false, fault, k).failure.value.cause == PathError
    ensures (forall i | 0 <= i < |pending| :: pending[i].folder.Some?) ==>
      && Drain(pending, false, fault, k).failure == None
      && |Drain(pending, false, fault, k).log| == |pending|
      && forall p | 0 <= p < |pending| :: Drain(pending, false, fault, k).log[p] == Announce(pending[|pending| - 1 - p])
    decreases |pending|
  {
    if pending != [] {
      var init := pending[..|pending| - 1];
      var d := pending[|pending| - 1];
      DrainStep(pending, false, fault, k);
      if d.folder.Some? {
        DrainDryRun(init, fault, k + 1);
        if forall i | 0 <= i < |pending| :: pending[i].folder.Some? {
          assert forall i | 0 <= i < |init| :: init[i] == pending[i];
          forall p | 1 <= p < |pending|
            ensures Drain(pending, false, fault, k).log[p] == Announce(pending[|pending| - 1 - p])
          {
            assert init[|init| - 1 - (p - 1)] == pending[|pending| - 1 - p];
          }
        }
      }
    }
  }

  /** Every delete call in a log comes right after its folder step, its download and the completion report. */
  predicate DeletesFollowDownloads(log: seq<Event>)
  {
    forall p | 0 <= p < |log| && log[p].Delete? ::
      && 3 <= p
      && log[p - 1] == DownloadComplete
      && log[p - 2].Download? && log[p - 2].file.id == log[p].id
      && log[p - 3].EnsureDir? && log[p - 2].file.folder == Some(log[p - 3].folder)
  }

  lemma DeletesFollowDownloadsAppend(a: seq<Event>, b: seq<Event>)
    requires DeletesFollowDownloads(a) && DeletesFollowDownloads(b)
    ensures DeletesFollowDownloads(a + b)
  {
    forall p | |a| <= p < |a + b| && (a + b)[p].Delete?
      ensures 3 <= p && (a + b)[p - 1] == DownloadComplete
    {
      assert b[p - |a|].Delete?;
    }
  }

  /** In the whole drained log, a file is deleted only once its folder and download steps succeeded. */
  lemma {:induction false} DrainDeletesFollowDownloads(
    pending: seq<Descriptor>, runDelete: bool, fault: nat -> Fault, k: nat)
    ensures DeletesFollowDownloads(Drain(pending, runDelete, fault, k).log)
    decreases |pending|
  {
    if pending != [] {
      var d := pending[|pending| - 1];
      var s := DeleteFile(d, runDelete, fault(k));
      DeleteFileSequencing(d, runDelete, fault(k));
      DrainStep(pending, runDelete, fault, k);
      if s.error.None? {
        DrainDeletesFollowDownloads(pending[..|pending| - 1], runDelete, fault, k + 1);
        DeletesFollowDownloadsAppend(s.events, Drain(pending[..|pending| - 1], runDelete, fault, k + 1).log);
      }
    }
  }

  /** The drained chain itself never reports an error: that is left to the catch at the top. */
  lemma {:induction false} DrainHasNoWhoopsie(
    pending: seq<Descriptor>, runDelete: bool, fault: nat -> Fault, k: nat)
    ensures forall p | 0 <= p < |Drain(pending, runDelete, fault, k).log| ::
      !Drain(pending, runDelete, fault, k).log[p].Whoopsie?
    decreases |pending|
  {
    if pending != [] {
      var d := pending[|pending| - 1];
      var s := DeleteFile(d, runDelete, fault(k));
      DeleteFileSequencing(d, runDelete, fault(k));
      DrainStep(pending, runDelete, fault, k);
      if s.error.None? {
        DrainHasNoWhoopsie(pending[..|pending| - 1], runDelete, fault, k + 1);
      }
    }
  }

  /**
   * The chain started by `next()`: pop from a copy (`files.slice()`) until it is
   * empty or an item's chain fails. The caller's array is only read.
   */
  method RunChain(files: array<Descriptor>, runDelete: bool, fault: nat -> Fault)
    returns (log: seq<Event>, failure: Option<Failure>)
    ensures Drained(log, failure) == Drain(files[..], runDelete, fault, 0)
  {
    var pending := files[..];
    ghost var total := Drain(pending, runDelete, fault, 0);
    var k := 0;
    failure := None;
    log := [];
    while pending != [] && failure == None
      invariant failure == None ==>
        total == Drained(log + Drain(pending, runDelete, fault, k).log, Drain(pending, runDelete, fault, k).failure)
      invariant failure != None ==> total == Drained(log, failure)
      decreases |pending|
    {
      ghost var before := pending;
      var file := pending[|pending| - 1];
      pending := pending[..|pending| - 1];
      var s := DeleteFile(file, runDelete, fault(k));
      DrainStep(before, runDelete, fault, k);
      if s.error.None? {
        ghost var rest := Drain(pending, runDelete, fault, k + 1);
        assert log + (s.events + rest.log) == (log + s.events) + rest.log;
      } else {
        failure := Some(Failure(k, s.error.value));
      }
      log := log + s.events;
      k := k + 1;
    }
    if failure == None {
      assert Drain(pending, runDelete, fault, k) == Drained([], None);
      assert log + [] == log;
    }
  }

  /**
   * `deleteFiles`: run the chain, then report a caught failure once. A path
   * error of the first item is thrown by the first `next()`, before `.catch`
   * is attached, so it escapes instead.
   */
  method DeleteFiles(files: array<Descriptor>, runDelete: bool, fault: nat -> Fault) returns (settled: Settled)
    ensures settled == Report(files[..], runDelete, fault)
    ensures settled.Threw? <==> files.Length > 0 && files[files.Length - 1].folder.None?
    ensures settled.Resolved? ==>
      forall p | 0 <= p < |settled.log| && settled.log[p].Whoopsie? :: p == |settled.log| - 1
  {
    var log, failure := RunChain(files, runDelete, fault);
    if failure.None? {
      settled := Resolved(log);
    } else if failure.value == Failure(0, PathError) {
      settled := Threw;
    } else {
      settled := Resolved(log + [Whoopsie(failure.value)]);
    }
    ReportThrows(files[..], runDelete, fault);
    ReportWhoopsieLast(files[..], runDelete, fault);
  }
}
