/**
 * The paginator (`getFiles`/`getUntil`): request pages 1, 2, 3, ... of the file
 * listing, build each page's descriptors and append them, and stop after the
 * first page where the total reaches the target or the page number reaches the
 * page count the latest response reported.
 */
module Paging {
  import opened Descriptors

  /** The fixed target passed as `count` (and the page size asked of the service). */
  const Target: nat := 50

  /** The service's answer to one page request: the reported page count and the raw entries, or a failure. */
  datatype Response = Listing(pages: int, files: seq<RawFile>) | RequestFailed

  /**
   * How the paginator ends. `OutOfTrace` means the run asked for a page past the
   * end of the given response trace: the trace was too short to decide the run.
   */
  datatype Fetch = Collected(files: seq<Descriptor>) | PageFailed(page: nat) | OutOfTrace

  /** The first n responses exist and are listings. */
  predicate ListedUpTo(responses: seq<Response>, n: nat)
  {
    n <= |responses| && forall j | 0 <= j < n :: responses[j].Listing?
  }

  /** The descriptors of pages 1..n, concatenated in page order, with no truncation. */
  function Accumulated(responses: seq<Response>, n: nat, ctx: Context): seq<Descriptor>
    requires ListedUpTo(responses, n)
  {
    if n == 0 then [] else Accumulated(responses, n - 1, ctx) + BuildPage(responses[n - 1].files, ctx)
  }

  /** The stop rule checked after page n: enough candidates, or the reported count is reached. */
  predicate StopsAt(responses: seq<Response>, n: nat, ctx: Context)
    requires 1 <= n && ListedUpTo(responses, n)
  {
    |Accumulated(responses, n, ctx)| >= Target || n >= responses[n - 1].pages
  }

  /** Page n was answered and the run went on past it. */
  predicate Continued(responses: seq<Response>, n: nat, ctx: Context)
  {
    1 <= n && ListedUpTo(responses, n) && !StopsAt(responses, n, ctx)
  }

  /** A run that asks for pages 1..n and stops there: the stop rule holds first at page n. */
  predicate CollectsAt(responses: seq<Response>, n: nat, ctx: Context)
  {
    && 1 <= n && ListedUpTo(responses, n)
    && StopsAt(responses, n, ctx)
    && forall m | 1 <= m < n :: Continued(responses, m, ctx)
  }

  /**
   * `getFiles`: the loop of `getUntil(1, [], 50)`. `responses[i - 1]` is the
   * service's answer to the request for page i; `requests` logs the page
   * numbers asked for, in order.
   */
  method GetFiles(responses: seq<Response>, ctx: Context) returns (outcome: Fetch, requests: seq<nat>)
    ensures |requests| >= 1
    ensures forall k | 0 <= k < |requests| :: requests[k] == k + 1
    ensures forall n | 1 <= n < |requests| :: Continued(responses, n, ctx)
    ensures outcome.Collected? ==>
      && ListedUpTo(responses, |requests|)
      && StopsAt(responses, |requests|, ctx)
      && outcome.files == Accumulated(responses, |requests|, ctx)
    ensures outcome.PageFailed? ==>
      && outcome.page == |requests| <= |responses|
      && responses[|requests| - 1].RequestFailed?
    ensures outcome.OutOfTrace? ==> |requests| == |responses| + 1 && ListedUpTo(responses, |responses|)
  {
    var results: seq<Descriptor> := [];
    var i := 1;
    requests := [];
    while true
      invariant 1 <= i <= |responses| + 1
      invariant |requests| == i - 1
      invariant forall k | 0 <= k < |requests| :: requests[k] == k + 1
      invariant ListedUpTo(responses, i - 1)
      invariant results == Accumulated(responses, i - 1, ctx)
      invariant forall n | 1 <= n < i :: Continued(responses, n, ctx)
      decreases |responses| + 1 - i
    {
      requests := requests + [i];
      if i > |responses| {
        return OutOfTrace, requests;
      }
      if responses[i - 1].RequestFailed? {
        return PageFailed(i), requests;
      }
      results := results + BuildPage(responses[i - 1].files, ctx);
      assert ListedUpTo(responses, i);
      assert results == Accumulated(responses, i, ctx);
      if |results| >= Target || i >= responses[i - 1].pages {
        return Collected(results), requests;
      }
      assert Continued(responses, i, ctx);
      i := i + 1;
    }
  }

  /** Pages are appended, never reordered: the descriptors of fewer pages are a prefix of those of more. */
  lemma {:induction false} AccumulatedPrefix(responses: seq<Response>, m: nat, n: nat, ctx: Context)
    requires m <= n && ListedUpTo(responses, n)
    ensures ListedUpTo(responses, m)
    ensures Accumulated(responses, m, ctx) <= Accumulated(responses, n, ctx)
    decreases n - m
  {
    if m < n {
      AccumulatedPrefix(responses, m, n - 1, ctx);
    }
  }

  /** Accumulating never loses or invents entries: it holds every page's entries but the dropped ones. */
  lemma {:induction false} AccumulatedLength(responses: seq<Response>, n: nat, ctx: Context)
    requires ListedUpTo(responses, n)
    ensures |Accumulated(responses, n, ctx)| == RawUpTo(responses, n) - DroppedUpTo(responses, n)
  {
    if n > 0 {
      AccumulatedLength(responses, n - 1, ctx);
      BuildPageFacts(responses[n - 1].files, ctx);
    }
  }

  /** The number of raw entries on pages 1..n. */
  function RawUpTo(responses: seq<Response>, n: nat): nat
    requires ListedUpTo(responses, n)
  {
    if n == 0 then 0 else RawUpTo(responses, n - 1) + |responses[n - 1].files|
  }

  /** The number of entries the builder drops on pages 1..n. */
  function DroppedUpTo(responses: seq<Response>, n: nat): nat
    requires ListedUpTo(responses, n)
  {
    if n == 0 then 0 else DroppedUpTo(responses, n - 1) + Dropped(responses[n - 1].files)
  }

  /**
   * Every response reports at most P pages, so a run that went on past pages
   * 1..n-1 asked for at most max(1, P) pages: page 1 is always asked for.
   */
  lemma RequestsBounded(responses: seq<Response>, n: nat, p: int, ctx: Context)
    requires forall j | 0 <= j < |responses| && responses[j].Listing? :: responses[j].pages <= p
    requires 1 <= n
    requires forall m | 1 <= m < n :: Continued(responses, m, ctx)
    ensures n <= if p < 1 then 1 else p
  {
    if n > 1 {
      assert Continued(responses, n - 1, ctx);
    }
  }

  /**
   * With a trace that answers every one of the first max(1, P) requests with a
   * listing reporting at most P pages, the run ends inside the trace: a stop is
   * reached no later than page max(1, P).
   */
  lemma StopsWithinReportedPages(responses: seq<Response>, p: int, ctx: Context)
    requires ListedUpTo(responses, if p < 1 then 1 else p)
    requires forall j | 0 <= j < |responses| && responses[j].Listing? :: responses[j].pages <= p
    ensures StopsAt(responses, if p < 1 then 1 else p, ctx)
  {
  }

  /**
   * When every response reports exactly P >= 1 pages and pages 1..P-1 together
   * stay below the target, the run goes on through pages 1..P-1 and stops at
   * page P: exactly P pages are requested, whatever the target.
   */
  lemma RunsToReportedCount(responses: seq<Response>, p: nat, ctx: Context)
    requires 1 <= p && ListedUpTo(responses, p)
    requires forall j | 0 <= j < p :: responses[j].pages == p
    requires |Accumulated(responses, p - 1, ctx)| < Target
    ensures forall n | 1 <= n < p :: Continued(responses, n, ctx)
    ensures StopsAt(responses, p, ctx)
  {
    forall n | 1 <= n < p ensures Continued(responses, n, ctx) {
      AccumulatedPrefix(responses, n, p - 1, ctx);
    }
  }

  /** The stop rule decides the run: at most one page count n is one at which a run collects. */
  lemma CollectsAtUnique(responses: seq<Response>, n: nat, ctx: Context)
    requires CollectsAt(responses, n, ctx)
    ensures forall m | CollectsAt(responses, m, ctx) :: m == n
  {
    forall m | 1 <= m && m != n ensures !CollectsAt(responses, m, ctx) {
      if m < n {
        assert Continued(responses, m, ctx);
      } else {
        assert !Continued(responses, n, ctx);
      }
    }
  }

  /**
   * A run that went on past pages 1..r-1 and then got a failed response for page
   * r never collects: no page count satisfies the stop rule first.
   */
  lemma NoCollectAfterFailure(responses: seq<Response>, r: nat, ctx: Context)
    requires 1 <= r <= |responses| && responses[r - 1].RequestFailed?
    requires forall m | 1 <= m < r :: Continued(responses, m, ctx)
    ensures forall n :: !CollectsAt(responses, n, ctx)
  {
    forall n | 1 <= n ensures !CollectsAt(responses, n, ctx) {
      if n < r {
        assert Continued(responses, n, ctx);
      } else {
        assert !responses[r - 1].Listing?;
      }
    }
  }

  /** A run that went on past every page of the trace never collects within it. */
  lemma NoCollectPastTrace(responses: seq<Response>, ctx: Context)
    requires forall m | 1 <= m <= |responses| :: Continued(responses, m, ctx)
    ensures forall n :: !CollectsAt(responses, n, ctx)
  {
    forall n | 1 <= n <= |responses| ensures !CollectsAt(responses, n, ctx) {
      assert Continued(responses, n, ctx);
    }
  }

  /**
   * What a run of the paginator decides about the whole trace: a collected
   * result is the one collecting page count; a failed request is the first one
   * the run reaches; a run past the trace continued through all of it. In each
   * case no other page count collects.
   */
  lemma OutcomeDecides(responses: seq<Response>, ctx: Context, fetched: Fetch, pages: nat)
    requires pages >= 1
    requires forall n | 1 <= n < pages :: Continued(responses, n, ctx)
    requires fetched.Collected? ==>
      && ListedUpTo(responses, pages) && StopsAt(responses, pages, ctx)
      && fetched.files == Accumulated(responses, pages, ctx)
    requires fetched.PageFailed? ==>
      fetched.page == pages <= |responses| && responses[pages - 1].RequestFailed?
    requires fetched.OutOfTrace? ==> pages == |responses| + 1 && ListedUpTo(responses, |responses|)
    ensures fetched.Collected? ==> CollectsAt(responses, pages, ctx)
    ensures forall n | CollectsAt(responses, n, ctx) :: fetched.Collected? && n == pages
    ensures fetched.PageFailed? ==>
      && 1 <= fetched.page <= |responses|
      && responses[fetched.page - 1].RequestFailed?
      && forall m | 1 <= m < fetched.page :: Continued(responses, m, ctx)
    ensures fetched.OutOfTrace? ==> forall n | 1 <= n <= |responses| :: Continued(responses, n, ctx)
  {
    match fetched
    case Collected(_) =>
      CollectsAtUnique(responses, pages, ctx);
    case PageFailed(page) =>
      NoCollectAfterFailure(responses, page, ctx);
    case OutOfTrace =>
      forall n | 1 <= n <= |responses| ensures Continued(responses, n, ctx) {
        assert n < pages;
      }
      NoCollectPastTrace(responses, ctx);
  }
}
