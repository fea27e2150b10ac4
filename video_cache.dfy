/**
 * `VideoCache`: the fetched byte spans of every url, keyed by start offset,
 * and the last playback time recorded for each url.
 */
module VideoCaching {
  import opened Common
  import opened RangeQuery

  /** A playback position (`CMTime`): a value and timescale pair, stored and returned without interpretation. */
  datatype CMTime = CMTime(value: int, timescale: int)

  class VideoCache {
    var cache: map<Url, Spans>
    var playbackTimes: map<Url, CMTime>

    constructor ()
      ensures cache == map[] && playbackTimes == map[]
    {
      cache := map[];
      playbackTimes := map[];
    }

    /** The spans stored for `url`, or None when nothing was ever stored for it. */
    function SpansOf(url: Url): Option<Spans>
      reads this
    {
      if url in cache then Some(cache[url]) else None
    }

    /**
     * Looks up `length` bytes at `offset`: the loop of the source over the
     * relevant start offsets, proved to compute `Query`.
     */
    method GetData(url: Url, offset: int, length: int) returns (r: Lookup)
      requires offset >= 0 && length >= 0
      ensures r == Query(SpansOf(url), offset, length)
    {
      if url !in cache {
        return Miss;
      }
      var videoCache := cache[url];
      assert SpansOf(url) == Some(videoCache);
      var availableRanges := SortedKeys(videoCache.Keys);
      var startIndex := FirstAtOrBelow(availableRanges, offset, 0);
      var endIndex := LastReaching(videoCache, availableRanges, offset + length, |availableRanges|);
      if startIndex.None? || endIndex.None? {
        return Miss;
      }
      if startIndex.value > endIndex.value {
        return Trap;
      }
      var relevantRanges := availableRanges[startIndex.value .. endIndex.value + 1];
      var scanned := ScanRanges(videoCache, relevantRanges, offset, length);
      match scanned
      case Exact(data) => r := Hit(data, offset, offset + length);
      case Accumulated(None, _) => r := Miss;
      case Accumulated(Some(coveredRange), combinedData) => r := Clip(coveredRange, combinedData, offset, length);
    }

    /**
     * The `for rangeStart in relevantRanges` loop (lines 28-49): the fast-path
     * slice, or the coverage and concatenated bytes when the loop ends or breaks.
     */
    static method ScanRanges(videoCache: Spans, relevantRanges: seq<int>, offset: int, length: int)
      returns (r: ScanOutcome)
      requires length >= 0
      ensures r == Scan(videoCache, relevantRanges, offset, length, None, [])
    {
      var combinedData: seq<Byte> := [];
      var coveredRange: Option<Coverage> := None;
      var i := 0;
      while i < |relevantRanges|
        invariant 0 <= i <= |relevantRanges|
        invariant Scan(videoCache, relevantRanges, offset, length, None, [])
               == Scan(videoCache, relevantRanges[i..], offset, length, coveredRange, combinedData)
      {
        var rangeStart := relevantRanges[i];
        assert relevantRanges[i..][1..] == relevantRanges[i + 1..];
        if rangeStart !in videoCache {
          i := i + 1;
          continue;
        }
        var rangeData := videoCache[rangeStart];
        var rangeEnd := rangeStart + |rangeData|;
        if rangeStart <= offset && rangeEnd >= offset + length {
          return Exact(rangeData[offset - rangeStart .. offset + length - rangeStart]);
        }
        if coveredRange.Some? {
          if rangeStart <= coveredRange.value.upper {
            coveredRange := Some(Coverage(coveredRange.value.lower, Max(coveredRange.value.upper, rangeEnd)));
          } else {
            break;
          }
        } else {
          coveredRange := Some(Coverage(rangeStart, rangeEnd));
        }
        combinedData := combinedData + rangeData;
        i := i + 1;
      }
      return Accumulated(coveredRange, combinedData);
    }

    /** Stores `data` as the span starting at `offset`, replacing an earlier span with that start. */
    method Store(data: seq<Byte>, url: Url, offset: int)
      modifies this
      ensures cache == old(cache)[url := Insert(old(SpansOf(url)), offset, data)]
      ensures playbackTimes == old(playbackTimes)
    {
      if url !in cache {
        cache := cache[url := map[]];
      }
      cache := cache[url := cache[url][offset := data]];
    }

    method StorePlaybackTime(time: CMTime, url: Url)
      modifies this
      ensures playbackTimes == old(playbackTimes)[url := time]
      ensures cache == old(cache)
    {
      playbackTimes := playbackTimes[url := time];
    }

    /** The last time recorded for `url`, or None if none was. */
    method GetPlaybackTime(url: Url) returns (t: Option<CMTime>)
      ensures url in playbackTimes ==> t == Some(playbackTimes[url])
      ensures url !in playbackTimes ==> t == None
    {
      if url in playbackTimes {
        t := Some(playbackTimes[url]);
      } else {
        t := None;
      }
    }
  }
}
