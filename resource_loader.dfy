/**
 * `ResourceLoaderDelegate`: answers the media engine's range-read requests for
 * one url from the shared `VideoCache`, queues the ones it cannot finish, keeps
 * at most one download in flight, and replays the cache to the queue when the
 * download completes.
 *
 * The engine's `AVAssetResourceLoadingRequest` objects are modelled by
 * `LoadingRequest`, which records what the delegate does to them; the
 * download is the `DataTask` value held in `downloadTask`, and its completion
 * is the explicit event `DownloadCompleted`.
 */
module Loader {
  import opened Common
  import opened RangeQuery
  import opened VideoCaching
  import opened RangeQueryFacts
  import RangeHeader

  /** The transport error a failed download reports (uninterpreted). */
  datatype FetchError = FetchError(code: int)

  /** A terminal call made on a loading request. */
  datatype Finish = Finished | FinishedWithError(error: Option<FetchError>)

  /** The download in flight: a GET for the url whose `Range` header starts at `from`. */
  datatype DataTask = DataTask(from: nat, range: string)

  /** How a download completes: with bytes, or without them (and the error, if any). */
  datatype FetchOutcome = Received(data: seq<Byte>) | NotReceived(error: Option<FetchError>)

  /**
   * A read request of the media engine. `hasDataRequest` says whether it
   * carries a data request; the offsets and length are that data request's.
   * `responses` and `finishes` record every `respond(with:)` and every
   * `finishLoading` call made on it.
   */
  class LoadingRequest {
    const hasDataRequest: bool
    const requestedOffset: nat
    const requestedLength: nat
    var currentOffset: int
    var responses: seq<seq<Byte>>
    var finishes: seq<Finish>

    constructor (hasDataRequest: bool, requestedOffset: nat, requestedLength: nat)
      ensures this.hasDataRequest == hasDataRequest
      ensures this.requestedOffset == requestedOffset && this.requestedLength == requestedLength
      ensures currentOffset == requestedOffset && responses == [] && finishes == []
    {
      this.hasDataRequest := hasDataRequest;
      this.requestedOffset := requestedOffset;
      this.requestedLength := requestedLength;
      currentOffset := requestedOffset;
      responses := [];
      finishes := [];
    }

    /** `dataRequest.respond(with:)`: delivers bytes; the engine advances `currentOffset` past them. */
    method Respond(data: seq<Byte>)
      modifies this
      ensures responses == old(responses) + [data]
      ensures currentOffset == old(currentOffset) + |data|
      ensures finishes == old(finishes)
    {
      responses := responses + [data];
      currentOffset := currentOffset + |data|;
    }

    /** `finishLoading()` */
    method FinishLoading()
      modifies this
      ensures finishes == old(finishes) + [Finished]
      ensures responses == old(responses) && currentOffset == old(currentOffset)
    {
      finishes := finishes + [Finished];
    }

    /** `finishLoading(with: error)` */
    method FinishLoadingWithError(error: Option<FetchError>)
      modifies this
      ensures finishes == old(finishes) + [FinishedWithError(error)]
      ensures responses == old(responses) && currentOffset == old(currentOffset)
    {
      finishes := finishes + [FinishedWithError(error)];
    }
  }

  /** `dataRequest?.requestedOffset ?? 0` */
  function OffsetOf(r: LoadingRequest): nat
  {
    if r.hasDataRequest then r.requestedOffset else 0
  }

  /** `dataRequest?.requestedLength ?? 0` */
  function LengthOf(r: LoadingRequest): nat
  {
    if r.hasDataRequest then r.requestedLength else 0
  }

  /** Whether `processPendingRequests` keeps `r` queued: it has a data request the cache cannot answer. */
  predicate StillWaits(spans: Option<Spans>, r: LoadingRequest)
  {
    r.hasDataRequest && Query(spans, r.requestedOffset, r.requestedLength) == Miss
  }

  /** Whether `processPendingRequests` answers and finishes `r`. */
  predicate Served(spans: Option<Spans>, r: LoadingRequest)
  {
    r.hasDataRequest && Query(spans, r.requestedOffset, r.requestedLength).Hit?
  }

  /** Whether looking `r` up on arrival traps (the source crashes there). */
  predicate Traps(spans: Option<Spans>, r: LoadingRequest)
  {
    Query(spans, OffsetOf(r), LengthOf(r)) == Trap
  }

  /** Whether serving queued `r` traps: only a request with a data request is looked up. */
  predicate ServingTraps(spans: Option<Spans>, r: LoadingRequest)
  {
    r.hasDataRequest && Query(spans, r.requestedOffset, r.requestedLength) == Trap
  }

  /** The queue `processPendingRequests` leaves behind, in the original order. */
  function StillWaiting(spans: Option<Spans>, rs: seq<LoadingRequest>): (r: seq<LoadingRequest>)
    ensures |r| <= |rs|
    decreases |rs|
  {
    if rs == [] then []
    else StillWaiting(spans, rs[..|rs| - 1]) + (if StillWaits(spans, rs[|rs| - 1]) then [rs[|rs| - 1]] else [])
  }

  /**
   * What `processPendingRequests` does to one queued request whose responses,
   * finishes and current offset go from `responses0`, `finishes0`, `offset0`
   * to `responses`, `finishes`, `offset`: a served request gets its bytes, its
   * current offset moves past them, and it gets one `finishLoading()`; any
   * other is left untouched.
   */
  predicate Handled(spans: Option<Spans>, r: LoadingRequest,
                    responses0: seq<seq<Byte>>, finishes0: seq<Finish>, offset0: int,
                    responses: seq<seq<Byte>>, finishes: seq<Finish>, offset: int)
  {
    if Served(spans, r) then
      var data := Query(spans, r.requestedOffset, r.requestedLength).data;
      responses == responses0 + [data] && finishes == finishes0 + [Finished] && offset == offset0 + |data|
    else
      responses == responses0 && finishes == finishes0 && offset == offset0
  }

  /** `startDownloadIfNeeded(from:)`: a new download only when none is in flight. */
  function StartIfIdle(task: Option<DataTask>, from: nat): (r: Option<DataTask>)
    ensures r.Some?
    ensures task.Some? ==> r == task
    ensures task.None? ==> r.value.from == from
  {
    if task.Some? then task else Some(DataTask(from, RangeHeader.OpenEndedRange(from)))
  }

  class ResourceLoaderDelegate {
    const cache: VideoCache
    const url: Url
    var pendingRequests: seq<LoadingRequest>
    var downloadTask: Option<DataTask>

    constructor (cache: VideoCache, url: Url)
      ensures this.cache == cache && this.url == url
      ensures pendingRequests == [] && downloadTask == None
    {
      this.cache := cache;
      this.url := url;
      pendingRequests := [];
      downloadTask := None;
    }

    /** A request is queued at most once. */
    ghost predicate Valid()
      reads this
    {
      Distinct(pendingRequests)
    }

    /**
     * `resourceLoader(_:shouldWaitForLoadingOfRequestedResource:)`: always
     * accepts. A hit whose range reaches `currentOffset + length` (read after
     * the response advanced it) is finished; any other hit is answered with its
     * bytes, queued, and a download is requested from the end of the hit; a
     * miss is queued and a download is requested from the requested offset.
     */
    method ShouldWaitForLoading(loadingRequest: LoadingRequest) returns (accepted: bool)
      requires Valid() && loadingRequest !in pendingRequests
      requires !Traps(cache.SpansOf(url), loadingRequest)
      modifies this, loadingRequest
      ensures Valid() && accepted
      ensures var q := Query(cache.SpansOf(url), OffsetOf(loadingRequest), LengthOf(loadingRequest));
              var delivered := if q.Hit? && loadingRequest.hasDataRequest then [q.data] else [];
              var reached := if q.Hit? && loadingRequest.hasDataRequest then old(loadingRequest.currentOffset) + |q.data| else 0;
              && loadingRequest.responses == old(loadingRequest.responses) + delivered
              && loadingRequest.currentOffset == (if delivered == [] then old(loadingRequest.currentOffset) else reached)
              && (q.Hit? && q.hi >= reached + LengthOf(loadingRequest) ==>
                    && loadingRequest.finishes == old(loadingRequest.finishes) + [Finished]
                    && pendingRequests == old(pendingRequests)
                    && downloadTask == old(downloadTask))
              && (q.Hit? && q.hi < reached + LengthOf(loadingRequest) ==>
                    && loadingRequest.finishes == old(loadingRequest.finishes)
                    && pendingRequests == old(pendingRequests) + [loadingRequest]
                    && downloadTask == StartIfIdle(old(downloadTask), q.hi))
              && (q.Miss? ==>
                    && loadingRequest.finishes == old(loadingRequest.finishes)
                    && pendingRequests == old(pendingRequests) + [loadingRequest]
                    && downloadTask == StartIfIdle(old(downloadTask), OffsetOf(loadingRequest)))
    {
      ghost var spans := cache.SpansOf(url);
      var lookup := cache.GetData(url, OffsetOf(loadingRequest), LengthOf(loadingRequest));
      Admit(loadingRequest, lookup);
      assert cache.SpansOf(url) == spans;
      return true;
    }

    /** The rest of `shouldWaitForLoadingOfRequestedResource` once the cache has answered with `lookup`. */
    method Admit(loadingRequest: LoadingRequest, lookup: Lookup)
      requires Valid() && loadingRequest !in pendingRequests
      requires lookup != Trap && (lookup.Hit? ==> lookup.hi >= 0)
      modifies this, loadingRequest
      ensures Valid()
      ensures var delivered := if lookup.Hit? && loadingRequest.hasDataRequest then [lookup.data] else [];
              var reached := if lookup.Hit? && loadingRequest.hasDataRequest then old(loadingRequest.currentOffset) + |lookup.data| else 0;
              && loadingRequest.responses == old(loadingRequest.responses) + delivered
              && loadingRequest.currentOffset == (if delivered == [] then old(loadingRequest.currentOffset) else reached)
              && (lookup.Hit? && lookup.hi >= reached + LengthOf(loadingRequest) ==>
                    && loadingRequest.finishes == old(loadingRequest.finishes) + [Finished]
                    && pendingRequests == old(pendingRequests)
                    && downloadTask == old(downloadTask))
              && (lookup.Hit? && lookup.hi < reached + LengthOf(loadingRequest) ==>
                    && loadingRequest.finishes == old(loadingRequest.finishes)
                    && pendingRequests == old(pendingRequests) + [loadingRequest]
                    && downloadTask == StartIfIdle(old(downloadTask), lookup.hi))
              && (lookup.Miss? ==>
                    && loadingRequest.finishes == old(loadingRequest.finishes)
                    && pendingRequests == old(pendingRequests) + [loadingRequest]
                    && downloadTask == StartIfIdle(old(downloadTask), OffsetOf(loadingRequest)))
    {
      var length := LengthOf(loadingRequest);
      if lookup.Hit? {
        if loadingRequest.hasDataRequest {
          loadingRequest.Respond(lookup.data);
        }
        var current := if loadingRequest.hasDataRequest then loadingRequest.currentOffset else 0;
        if lookup.hi >= current + length {
          loadingRequest.FinishLoading();
        } else {
          pendingRequests := pendingRequests + [loadingRequest];
          StartDownloadIfNeeded(lookup.hi);
        }
      } else {
        pendingRequests := pendingRequests + [loadingRequest];
        StartDownloadIfNeeded(OffsetOf(loadingRequest));
      }
    }

    /** `startDownloadIfNeeded(from:)`: does nothing while a download is in flight. */
    method StartDownloadIfNeeded(from: nat)
      modifies this`downloadTask
      ensures downloadTask == StartIfIdle(old(downloadTask), from)
    {
      if downloadTask.Some? {
        return;
      }
      downloadTask := Some(DataTask(from, RangeHeader.OpenEndedRange(from)));
    }

    /**
     * The download's completion handler. With bytes: stores them at the
     * download's start offset, processes the queue, then clears the task (no
     * follow-up download is started). Without bytes: fails every queued
     * request once with the error and empties the queue, leaving the task set.
     */
    method DownloadCompleted(outcome: FetchOutcome)
      requires Valid() && downloadTask.Some?
      requires outcome.Received? ==>
                 forall r :: r in pendingRequests ==>
                   !ServingTraps(Some(Insert(cache.SpansOf(url), downloadTask.value.from, outcome.data)), r)
      modifies this, cache, pendingRequests
      ensures Valid()
      ensures cache.playbackTimes == old(cache.playbackTimes)
      ensures outcome.Received? ==>
                && cache.cache == old(cache.cache)[url := Insert(old(cache.SpansOf(url)), old(downloadTask.value.from), outcome.data)]
                && pendingRequests == StillWaiting(cache.SpansOf(url), old(pendingRequests))
                && downloadTask == None
                && (forall r :: r in old(pendingRequests) ==>
                      Handled(cache.SpansOf(url), r, old(r.responses), old(r.finishes), old(r.currentOffset), r.responses, r.finishes, r.currentOffset))
      ensures outcome.NotReceived? ==>
                && cache.cache == old(cache.cache)
                && pendingRequests == []
                && downloadTask == old(downloadTask)
                && (forall r :: r in old(pendingRequests) ==>
                      && r.responses == old(r.responses) && r.currentOffset == old(r.currentOffset)
                      && r.finishes == old(r.finishes) + [FinishedWithError(outcome.error)])
    {
      if outcome.NotReceived? {
        var i := 0;
        while i < |pendingRequests|
          invariant 0 <= i <= |pendingRequests|
          invariant pendingRequests == old(pendingRequests) && downloadTask == old(downloadTask)
          invariant cache.cache == old(cache.cache) && cache.playbackTimes == old(cache.playbackTimes)
          invariant forall j :: 0 <= j < i ==>
                      && pendingRequests[j].responses == old(pendingRequests[j].responses)
                      && pendingRequests[j].currentOffset == old(pendingRequests[j].currentOffset)
                      && pendingRequests[j].finishes == old(pendingRequests[j].finishes) + [FinishedWithError(outcome.error)]
          invariant forall j :: i <= j < |pendingRequests| ==>
                      && pendingRequests[j].responses == old(pendingRequests[j].responses)
                      && pendingRequests[j].currentOffset == old(pendingRequests[j].currentOffset)
                      && pendingRequests[j].finishes == old(pendingRequests[j].finishes)
        {
          pendingRequests[i].FinishLoadingWithError(outcome.error);
          i := i + 1;
        }
        pendingRequests := [];
        return;
      }
      cache.Store(outcome.data, url, downloadTask.value.from);
      ProcessPendingRequests();
      downloadTask := None;
    }

    /**
     * `processPendingRequests`: every queued request the cache now answers
     * with any data (a clipped part included) is answered and finished; queued
     * requests without a data request are dropped unanswered; the rest stay
     * queued in their order.
     */
    method ProcessPendingRequests()
      requires Valid()
      requires forall r :: r in pendingRequests ==> !ServingTraps(cache.SpansOf(url), r)
      modifies this`pendingRequests, pendingRequests
      ensures Valid()
      ensures pendingRequests == StillWaiting(cache.SpansOf(url), old(pendingRequests))
      ensures forall r :: r in old(pendingRequests) ==> Handled(cache.SpansOf(url), r, old(r.responses), old(r.finishes), old(r.currentOffset), r.responses, r.finishes, r.currentOffset)
    {
      var kept := ServeEach(pendingRequests);
      StillWaitingDistinct(cache.SpansOf(url), pendingRequests);
      pendingRequests := kept;
    }

    /** The filter over the queue, request by request in queue order. */
    method ServeEach(all: seq<LoadingRequest>) returns (kept: seq<LoadingRequest>)
      requires Distinct(all)
      requires forall r :: r in all ==> !ServingTraps(cache.SpansOf(url), r)
      modifies all
      ensures kept == StillWaiting(cache.SpansOf(url), all)
      ensures forall r :: r in all ==> Handled(cache.SpansOf(url), r, old(r.responses), old(r.finishes), old(r.currentOffset), r.responses, r.finishes, r.currentOffset)
    {
      ghost var spans := cache.SpansOf(url);
      kept := [];
      var i := 0;
      while i < |all|
        invariant 0 <= i <= |all|
        invariant kept == StillWaiting(spans, all[..i])
        invariant forall j {:trigger all[j].finishes} :: 0 <= j < i ==>
                    Handled(spans, all[j], old(all[j].responses), old(all[j].finishes), old(all[j].currentOffset), all[j].responses, all[j].finishes, all[j].currentOffset)
        invariant forall j :: i <= j < |all| ==>
                    && all[j].responses == old(all[j].responses) && all[j].finishes == old(all[j].finishes)
                    && all[j].currentOffset == old(all[j].currentOffset)
      {
        var request := all[i];
        StillWaitingPrefix(spans, all, i);
        var keep := ServeQueued(request);
        if keep {
          kept := kept + [request];
        }
        i := i + 1;
      }
      assert all[..i] == all;
    }

    /** The filter's closure for one queued request: answers and finishes it on a hit, keeps it on a miss. */
    method ServeQueued(request: LoadingRequest) returns (keep: bool)
      requires !ServingTraps(cache.SpansOf(url), request)
      modifies request
      ensures keep == StillWaits(cache.SpansOf(url), request)
      ensures Handled(cache.SpansOf(url), request, old(request.responses), old(request.finishes), old(request.currentOffset), request.responses, request.finishes, request.currentOffset)
    {
      if !request.hasDataRequest {
        return false;
      }
      var result := cache.GetData(url, request.requestedOffset, request.requestedLength);
      if result.Hit? {
        request.Respond(result.data);
        request.FinishLoading();
        return false;
      }
      return true;
    }
  }

  lemma StillWaitingSnoc(spans: Option<Spans>, rs: seq<LoadingRequest>, r: LoadingRequest)
    ensures StillWaiting(spans, rs + [r]) == StillWaiting(spans, rs) + (if StillWaits(spans, r) then [r] else [])
  {
    assert (rs + [r])[..|rs|] == rs;
  }

  lemma StillWaitingPrefix(spans: Option<Spans>, rs: seq<LoadingRequest>, i: nat)
    requires i < |rs|
    ensures StillWaiting(spans, rs[..i + 1]) == StillWaiting(spans, rs[..i]) + (if StillWaits(spans, rs[i]) then [rs[i]] else [])
  {
    assert rs[..i + 1] == rs[..i] + [rs[i]];
    StillWaitingSnoc(spans, rs[..i], rs[i]);
  }

  /** The kept queue holds only queued requests, so it stays free of duplicates. */
  lemma {:induction false} StillWaitingDistinct(spans: Option<Spans>, rs: seq<LoadingRequest>)
    requires Distinct(rs)
    ensures Distinct(StillWaiting(spans, rs))
    ensures forall r :: r in StillWaiting(spans, rs) ==> r in rs
    decreases |rs|
  {
    if rs != [] {
      var init, last := rs[..|rs| - 1], rs[|rs| - 1];
      assert rs == init + [last];
      StillWaitingDistinct(spans, init);
      StillWaitingSnoc(spans, init, last);
      assert forall r :: r in init ==> r != last;
      var w := StillWaiting(spans, init);
      assert last !in w;
      forall i, j | 0 <= i < j < |w + [last]|
        ensures (w + [last])[i] != (w + [last])[j]
      {
        if j == |w| {
          assert (w + [last])[i] == w[i];
        }
      }
    }
  }

  /** A request stays queued exactly when it was queued and the cache still cannot answer it. */
  lemma {:induction false} StillWaitingMembers(spans: Option<Spans>, rs: seq<LoadingRequest>, r: LoadingRequest)
    ensures r in StillWaiting(spans, rs) <==> r in rs && StillWaits(spans, r)
    decreases |rs|
  {
    if rs != [] {
      var init, last := rs[..|rs| - 1], rs[|rs| - 1];
      assert rs == init + [last];
      StillWaitingMembers(spans, init, r);
      StillWaitingSnoc(spans, init, last);
    }
  }

  /** The queue is filtered request by request: order is kept and parts filter independently. */
  lemma {:induction false} StillWaitingAppend(spans: Option<Spans>, a: seq<LoadingRequest>, b: seq<LoadingRequest>)
    ensures StillWaiting(spans, a + b) == StillWaiting(spans, a) + StillWaiting(spans, b)
    decreases |b|
  {
    if b == [] {
      assert a + b == a;
    } else {
      var init, last := b[..|b| - 1], b[|b| - 1];
      assert b == init + [last];
      assert a + b == (a + init) + [last];
      StillWaitingAppend(spans, a, init);
      StillWaitingSnoc(spans, a + init, last);
      StillWaitingSnoc(spans, init, last);
    }
  }

  /** Processing the queue again against the same cache changes nothing. */
  lemma {:induction false} StillWaitingIdempotent(spans: Option<Spans>, rs: seq<LoadingRequest>)
    ensures StillWaiting(spans, StillWaiting(spans, rs)) == StillWaiting(spans, rs)
    decreases |rs|
  {
    if rs != [] {
      var init, last := rs[..|rs| - 1], rs[|rs| - 1];
      assert rs == init + [last];
      StillWaitingSnoc(spans, init, last);
      StillWaitingIdempotent(spans, init);
      var kept := if StillWaits(spans, last) then [last] else [];
      StillWaitingAppend(spans, StillWaiting(spans, init), kept);
      if StillWaits(spans, last) {
        StillWaitingSnoc(spans, [], last);
        assert [] + [last] == [last];
      }
    }
  }

  /** The `Range` header of a newly started download reads back as its start offset. */
  lemma NewDownloadRangeParses(from: nat)
    ensures StartIfIdle(None, from).Some?
    ensures RangeHeader.ParseOpenEndedRange(StartIfIdle(None, from).value.range) == Some(from)
  {
    RangeHeader.OpenEndedRangeRoundTrip(from);
  }

  /**
   * For a request whose `currentOffset` is still its requested offset:
   * because the response advances `currentOffset` by
   * the bytes delivered before the test, a hit finishes the request at once
   * exactly when the request asked for no bytes; every other hit, a complete
   * one included, is queued.
   */
  lemma FreshHitFinishesOnlyWhenEmpty(spans: Spans, offset: nat, length: nat)
    requires Query(Some(spans), offset, length).Hit?
    ensures var q := Query(Some(spans), offset, length);
            q.hi >= offset + |q.data| + length <==> length == 0
  {
    HitCoversItsRange(Some(spans), offset, length);
    HitStartsAtOffset(Some(spans), offset, length);
  }
}
