/**
 * The lookup performed by `VideoCache.getData`, as functions over the spans
 * stored for one url (a map from a span's start offset to its bytes).
 *
 * The lookup sorts the start offsets, keeps the keys from the first one at or
 * below the requested offset up to the last one whose span reaches the end of
 * the request, and scans them in ascending order: a single span covering the
 * whole request is answered exactly; otherwise coverage is accumulated over
 * touching or overlapping spans up to the first gap and clipped to the request.
 */
module RangeQuery {
  import opened Common

  /** The spans stored for one url: start offset -> bytes. */
  type Spans = map<int, seq<Byte>>

  /** The covered interval `lower..<upper` accumulated by the scan. */
  datatype Coverage = Coverage(lower: int, upper: int)

  /** What the scan loop ends with: the fast-path slice, or the accumulated coverage and bytes. */
  datatype ScanOutcome =
    | Exact(data: seq<Byte>)
    | Accumulated(covered: Option<Coverage>, combined: seq<Byte>)

  /**
   * Result of a lookup: no data, data with the half-open range it claims to
   * cover, or a run-time trap (a Swift range whose lower bound exceeds its
   * upper bound, or a slice out of bounds).
   */
  datatype Lookup = Miss | Hit(data: seq<Byte>, lo: int, hi: int) | Trap

  predicate StrictlySorted(s: seq<int>)
  {
    forall i, j :: 0 <= i < j < |s| ==> s[i] < s[j]
  }

  /** Where the span starting at `k` ends; an absent key counts as empty (`?? 0`). */
  function EndOf(spans: Spans, k: int): int
  {
    k + (if k in spans then |spans[k]| else 0)
  }

  lemma NonEmptyHasElement(s: set<int>)
    requires s != {}
    ensures exists x :: x in s
  {
    if forall x :: x !in s {
      assert false;
    }
  }

  lemma {:induction false} MinimumExists(s: set<int>)
    requires s != {}
    ensures exists m :: m in s && forall y :: y in s ==> m <= y
    decreases |s|
  {
    NonEmptyHasElement(s);
    var x :| x in s;
    if s != {x} {
      var rest := s - {x};
      MinimumExists(rest);
      var m :| m in rest && forall y :: y in rest ==> m <= y;
      var least := if x < m then x else m;
      forall y | y in s ensures least <= y {
        if y != x { assert y in rest; }
      }
      assert least in s;
    } else {
      assert forall y :: y in s ==> x <= y;
    }
  }

  lemma SortedCons(m: int, rest: seq<int>)
    requires StrictlySorted(rest)
    requires forall x :: x in rest ==> m < x
    ensures StrictlySorted([m] + rest)
  {
    forall i, j | 0 <= i < j < |[m] + rest| ensures ([m] + rest)[i] < ([m] + rest)[j] {
      if i > 0 { assert ([m] + rest)[i] == rest[i - 1]; }
      assert ([m] + rest)[j] == rest[j - 1];
      assert rest[j - 1] in rest;
    }
  }

  /** The start offsets in ascending order (`keys.sorted()`). */
  function SortedKeys(s: set<int>): (r: seq<int>)
    ensures |r| == |s|
    decreases |s|
  {
    if s == {} then []
    else
      MinimumExists(s);
      var m :| m in s && forall y :: y in s ==> m <= y;
      [m] + SortedKeys(s - {m})
  }

  /** Every sorted key is a key of the set. */
  lemma {:induction false} SortedKeysMembers(s: set<int>)
    ensures forall i :: 0 <= i < |SortedKeys(s)| ==> SortedKeys(s)[i] in s
    decreases |s|
  {
    if s != {} {
      var r := SortedKeys(s);
      var rest := SortedKeys(s - {r[0]});
      assert r == [r[0]] + rest;
      SortedKeysMembers(s - {r[0]});
      forall i | 0 < i < |r| ensures r[i] in s {
        assert r[i] == rest[i - 1];
      }
    }
  }

  /** The keys come out in strictly ascending order. */
  lemma {:induction false} SortedKeysSorted(s: set<int>)
    ensures StrictlySorted(SortedKeys(s))
    decreases |s|
  {
    if s != {} {
      var r := SortedKeys(s);
      var rest := SortedKeys(s - {r[0]});
      assert r == [r[0]] + rest;
      SortedKeysSorted(s - {r[0]});
      SortedKeysMembers(s - {r[0]});
      forall x | x in rest ensures r[0] < x {
        var i :| 0 <= i < |rest| && rest[i] == x;
        assert x in s - {r[0]};
      }
      SortedCons(r[0], rest);
    }
  }

  /** Every stored start offset appears among the sorted keys. */
  lemma {:induction false} SortedKeysComplete(s: set<int>, x: int)
    requires x in s
    ensures x in SortedKeys(s)
    decreases |s|
  {
    var r := SortedKeys(s);
    assert r != [];
    if x != r[0] {
      assert r[0] in s;
      var rest := SortedKeys(s - {r[0]});
      assert r == [r[0]] + rest;
      SortedKeysComplete(s - {r[0]}, x);
    }
  }

  /** `firstIndex(where: { $0 <= offset })`, searching from index `from`. */
  function FirstAtOrBelow(ks: seq<int>, offset: int, from: nat): (r: Option<nat>)
    requires from <= |ks|
    ensures r.Some? ==> from <= r.value < |ks| && ks[r.value] <= offset
    decreases |ks| - from
  {
    if from == |ks| then None
    else if ks[from] <= offset then Some(from)
    else FirstAtOrBelow(ks, offset, from + 1)
  }

  /** `firstIndex` skips exactly the keys above the offset before the one it finds. */
  lemma {:induction false} FirstAtOrBelowSkips(ks: seq<int>, offset: int, from: nat)
    requires from <= |ks|
    ensures var r := FirstAtOrBelow(ks, offset, from);
            && (r.Some? ==> forall j :: from <= j < r.value ==> ks[j] > offset)
            && (r.None? ==> forall j :: from <= j < |ks| ==> ks[j] > offset)
    decreases |ks| - from
  {
    if from < |ks| && ks[from] > offset {
      FirstAtOrBelowSkips(ks, offset, from + 1);
    }
  }

  /** `lastIndex(where: { $0 + count >= target })`, searching below index `upTo`. */
  function LastReaching(spans: Spans, ks: seq<int>, target: int, upTo: nat): (r: Option<nat>)
    requires upTo <= |ks|
    ensures r.Some? ==> r.value < upTo && EndOf(spans, ks[r.value]) >= target
  {
    if upTo == 0 then None
    else if EndOf(spans, ks[upTo - 1]) >= target then Some(upTo - 1)
    else LastReaching(spans, ks, target, upTo - 1)
  }

  /** `lastIndex` finds an index whenever some key below `upTo` reaches the target, and none below it. */
  lemma {:induction false} LastReachingFinds(spans: Spans, ks: seq<int>, target: int, upTo: nat, j: nat)
    requires j < upTo <= |ks| && EndOf(spans, ks[j]) >= target
    ensures LastReaching(spans, ks, target, upTo).Some?
    ensures j <= LastReaching(spans, ks, target, upTo).value
  {
    if EndOf(spans, ks[upTo - 1]) < target {
      LastReachingFinds(spans, ks, target, upTo - 1, j);
    }
  }

  /** `lastIndex` skips exactly the keys whose spans end short of the target after the one it finds. */
  lemma {:induction false} LastReachingSkips(spans: Spans, ks: seq<int>, target: int, upTo: nat)
    requires upTo <= |ks|
    ensures var r := LastReaching(spans, ks, target, upTo);
            && (r.Some? ==> forall j :: r.value < j < upTo ==> EndOf(spans, ks[j]) < target)
            && (r.None? ==> forall j :: 0 <= j < upTo ==> EndOf(spans, ks[j]) < target)
  {
    if upTo > 0 && EndOf(spans, ks[upTo - 1]) < target {
      LastReachingSkips(spans, ks, target, upTo - 1);
    }
  }

  /**
   * The `for rangeStart in relevantRanges` loop from the state `covered`,
   * `combined`: the scan of the keys `ks` still to visit.
   */
  function Scan(spans: Spans, ks: seq<int>, offset: int, length: int,
                covered: Option<Coverage>, combined: seq<Byte>): (r: ScanOutcome)
    requires length >= 0
    ensures r.Exact? ==> |r.data| == length
    ensures covered.Some? && r.Accumulated? ==> r.covered.Some? && r.covered.value.lower == covered.value.lower
    decreases |ks|
  {
    if ks == [] then Accumulated(covered, combined)
    else if ks[0] !in spans then Scan(spans, ks[1..], offset, length, covered, combined)
    else
      var start := ks[0];
      var data := spans[start];
      var end := start + |data|;
      if start <= offset && end >= offset + length then
        Exact(data[offset - start .. offset + length - start])
      else if covered.Some? && start > covered.value.upper then
        Accumulated(covered, combined)
      else
        var next := if covered.Some? then Coverage(covered.value.lower, Max(covered.value.upper, end))
                    else Coverage(start, end);
        Scan(spans, ks[1..], offset, length, Some(next), combined + data)
  }

  /** The clipping after the loop (lines 51-55), with Swift's run-time traps made explicit. */
  function Clip(c: Coverage, combined: seq<Byte>, offset: int, length: int): (r: Lookup)
    ensures r != Miss
    ensures length >= 0 && c.lower <= offset ==>
              (r.Hit? <==> offset <= c.upper && offset - c.lower <= |combined|)
    ensures r.Hit? && c.lower <= offset ==> r.lo == offset
    ensures r.Hit? ==> r.lo == Max(offset, c.lower) && r.hi == Min(offset + length, c.upper)
  {
    var startDelta := Max(offset - c.lower, 0);
    var endDelta := Min(offset + length - c.lower, |combined|);
    var lo := Max(offset, c.lower);
    var hi := Min(offset + length, c.upper);
    if 0 <= startDelta <= endDelta <= |combined| && lo <= hi then Hit(combined[startDelta..endDelta], lo, hi)
    else Trap
  }

  /** The answer once the loop is over: the fast-path slice, nothing, or the clipped coverage. */
  function Finish(o: ScanOutcome, offset: int, length: int): (r: Lookup)
    ensures r == Miss <==> o.Accumulated? && o.covered.None?
    ensures r.Hit? && (o.Accumulated? ==> o.covered.value.lower <= offset) ==> r.lo == offset
  {
    match o
    case Exact(d) => Hit(d, offset, offset + length)
    case Accumulated(None, _) => Miss
    case Accumulated(Some(c), combined) => Clip(c, combined, offset, length)
  }

  /** Both guards of `getData` (lines 19-22) find an index. */
  predicate GuardsPass(spans: Spans, offset: int, length: int)
  {
    var ks := SortedKeys(spans.Keys);
    FirstAtOrBelow(ks, offset, 0).Some? && LastReaching(spans, ks, offset + length, |ks|).Some?
  }

  /** `getData(for:requestedRange:length:)` on the spans stored for the url, if any. */
  function Query(stored: Option<Spans>, offset: int, length: int): (r: Lookup)
    requires offset >= 0 && length >= 0
    ensures stored.None? ==> r == Miss
    ensures r.Hit? ==> offset <= r.lo <= r.hi <= offset + length
  {
    if stored.None? then Miss
    else
      var spans := stored.value;
      var ks := SortedKeys(spans.Keys);
      var first := FirstAtOrBelow(ks, offset, 0);
      var last := LastReaching(spans, ks, offset + length, |ks|);
      if first.None? || last.None? then Miss
      else if first.value > last.value then Trap
      else Finish(Scan(spans, ks[first.value .. last.value + 1], offset, length, None, []), offset, length)
  }

  /** `store(data:for:offset:)` on the spans of one url: last write per start wins. */
  function Insert(stored: Option<Spans>, start: int, data: seq<Byte>): (r: Spans)
    ensures start in r && r[start] == data
    ensures stored.Some? ==> r.Keys == stored.value.Keys + {start}
    ensures stored.Some? ==> forall k :: k in stored.value && k != start ==> r[k] == stored.value[k]
    ensures stored.None? ==> r.Keys == {start}
  {
    (if stored.Some? then stored.value else map[])[start := data]
  }
}

/** Properties of the lookup and the store, stated over `RangeQuery`. */
module RangeQueryFacts {
  import opened Common
  import opened RangeQuery

  /** Two-key maps are sorted as expected. */
  lemma SortedPair(a: int, b: int)
    requires a < b
    ensures SortedKeys({a, b}) == [a, b]
  {
    var r := SortedKeys({a, b});
    SortedKeysComplete({a, b}, a);
    SortedKeysComplete({a, b}, b);
    assert r[0] in {a, b} && r[1] in {a, b};
  }

  lemma SortedTriple(a: int, b: int, c: int)
    requires a < b < c
    ensures SortedKeys({a, b, c}) == [a, b, c]
  {
    var r := SortedKeys({a, b, c});
    assert |{a, b, c}| == 3;
    SortedKeysComplete({a, b, c}, a);
    SortedKeysComplete({a, b, c}, c);
    assert r[0] in {a, b, c} && r[1] in {a, b, c} && r[2] in {a, b, c};
  }

  /** The first key at or below the offset, in ascending order, is the smallest key. */
  lemma FirstIsSmallest(ks: seq<int>, offset: int)
    requires StrictlySorted(ks)
    requires FirstAtOrBelow(ks, offset, 0).Some?
    ensures FirstAtOrBelow(ks, offset, 0).value == 0
  {
  }

  /** The guard at line 19 finds an index exactly when some span starts at or before the offset. */
  lemma FirstFound(spans: Spans, offset: int)
    ensures FirstAtOrBelow(SortedKeys(spans.Keys), offset, 0).Some?
            <==> exists k :: k in spans && k <= offset
  {
    var ks := SortedKeys(spans.Keys);
    SortedKeysMembers(spans.Keys);
    FirstAtOrBelowSkips(ks, offset, 0);
    if exists k :: k in spans && k <= offset {
      var k :| k in spans && k <= offset;
      SortedKeysComplete(spans.Keys, k);
      var j :| 0 <= j < |ks| && ks[j] == k;
    }
  }

  /** The guard at line 20 finds an index exactly when some span reaches the end of the request. */
  lemma LastFound(spans: Spans, target: int)
    ensures var ks := SortedKeys(spans.Keys);
            LastReaching(spans, ks, target, |ks|).Some?
            <==> exists k :: k in spans && k + |spans[k]| >= target
  {
    var ks := SortedKeys(spans.Keys);
    SortedKeysMembers(spans.Keys);
    LastReachingSkips(spans, ks, target, |ks|);
    if exists k :: k in spans && k + |spans[k]| >= target {
      var k :| k in spans && k + |spans[k]| >= target;
      SortedKeysComplete(spans.Keys, k);
      var j :| 0 <= j < |ks| && ks[j] == k;
      assert EndOf(spans, ks[j]) >= target;
    }
    var r := LastReaching(spans, ks, target, |ks|);
    if r.Some? {
      assert ks[r.value] in spans;
    }
  }

  /** Once both guards pass, the scan starts from a stored span, so the answer is data or a trap. */
  lemma PastGuardsNeverMiss(spans: Spans, offset: int, length: int)
    requires offset >= 0 && length >= 0
    requires (exists k :: k in spans && k <= offset)
    requires (exists k :: k in spans && k + |spans[k]| >= offset + length)
    ensures Query(Some(spans), offset, length) != Miss
  {
    FirstFound(spans, offset);
    LastFound(spans, offset + length);
    var relevant := AnsweredFromRelevant(spans, offset, length);
    ScanFromStoredSpan(spans, relevant, offset, length);
  }

  /**
   * A scan whose first key is stored either takes the fast path or ends with
   * coverage that starts at that key.
   */
  lemma ScanFromStoredSpan(spans: Spans, relevant: seq<int>, offset: int, length: int)
    requires length >= 0 && relevant != [] && relevant[0] in spans
    ensures var o := Scan(spans, relevant, offset, length, None, []);
            o.Accumulated? ==> o.covered.Some? && o.covered.value.lower == relevant[0]
  {
    var start := relevant[0];
    var end := start + |spans[start]|;
    if !(start <= offset && end >= offset + length) {
      assert Scan(spans, relevant, offset, length, None, [])
          == Scan(spans, relevant[1..], offset, length, Some(Coverage(start, end)), [] + spans[start]);
    }
  }

  /**
   * Every answer `getData` gives starts exactly at the requested offset: the
   * scan starts from the smallest key, which is at or below the offset, the
   * coverage keeps that lower end, and clipping raises it to the offset.
   */
  lemma HitStartsAtOffset(stored: Option<Spans>, offset: int, length: int)
    requires offset >= 0 && length >= 0
    ensures var r := Query(stored, offset, length);
            r.Hit? ==> r.lo == offset && r.hi <= offset + length
  {
    if stored.Some? && Query(stored, offset, length).Hit? {
      var spans := stored.value;
      assert GuardsPass(spans, offset, length);
      var relevant := AnsweredFromRelevant(spans, offset, length);
      ScanFromStoredSpan(spans, relevant, offset, length);
    }
  }

  /**
   * The bytes the loop appends are never fewer than the coverage they claim:
   * each appended span starts at or below the coverage's upper end, so the
   * new upper end is paid for by that span's own bytes.
   */
  lemma {:induction false} ScanCombinedCoversRange(spans: Spans, ks: seq<int>, offset: int, length: int,
                                                  covered: Option<Coverage>, combined: seq<Byte>)
    requires length >= 0
    requires covered.Some? ==> covered.value.upper - covered.value.lower <= |combined|
    ensures var o := Scan(spans, ks, offset, length, covered, combined);
            o.Accumulated? && o.covered.Some? ==> o.covered.value.upper - o.covered.value.lower <= |o.combined|
    decreases |ks|
  {
    if ks != [] {
      if ks[0] !in spans {
        ScanCombinedCoversRange(spans, ks[1..], offset, length, covered, combined);
      } else {
        var start := ks[0];
        var data := spans[start];
        var end := start + |data|;
        if !(start <= offset && end >= offset + length) && !(covered.Some? && start > covered.value.upper) {
          var next := if covered.Some? then Coverage(covered.value.lower, Max(covered.value.upper, end))
                      else Coverage(start, end);
          assert Scan(spans, ks, offset, length, covered, combined)
              == Scan(spans, ks[1..], offset, length, Some(next), combined + data);
          ScanCombinedCoversRange(spans, ks[1..], offset, length, Some(next), combined + data);
        }
      }
    }
  }

  /**
   * Every answer carries at least as many bytes as the range it claims and at
   * most as many as were requested. On overlapping spans it can carry more
   * bytes than its range, since overlapping spans are appended whole.
   */
  lemma HitCoversItsRange(stored: Option<Spans>, offset: int, length: int)
    requires offset >= 0 && length >= 0
    ensures var r := Query(stored, offset, length);
            r.Hit? ==> r.hi - r.lo <= |r.data| <= length
  {
    if stored.Some? && Query(stored, offset, length).Hit? {
      var spans := stored.value;
      assert GuardsPass(spans, offset, length);
      var relevant := AnsweredFromRelevant(spans, offset, length);
      ScanFromStoredSpan(spans, relevant, offset, length);
      ScanCombinedCoversRange(spans, relevant, offset, length, None, []);
    }
  }

  /**
   * The coverage the loop records is closed: its upper end never goes down,
   * and every scanned key at or below the final upper end has its span end
   * there or before. Keys past a gap lie above the coverage, since the keys
   * ascend.
   */
  lemma {:induction false} ScanClosed(spans: Spans, ks: seq<int>, offset: int, length: int,
                                     covered: Option<Coverage>, combined: seq<Byte>)
    requires length >= 0 && StrictlySorted(ks)
    ensures var o := Scan(spans, ks, offset, length, covered, combined);
            o.Accumulated? && o.covered.Some? ==>
              && (covered.Some? ==> covered.value.upper <= o.covered.value.upper)
              && forall j :: 0 <= j < |ks| && ks[j] <= o.covered.value.upper ==>
                   EndOf(spans, ks[j]) <= o.covered.value.upper
    decreases |ks|
  {
    if ks != [] {
      var o := Scan(spans, ks, offset, length, covered, combined);
      var rest := ks[1..];
      assert StrictlySorted(rest) by {
        forall a, b | 0 <= a < b < |rest| ensures rest[a] < rest[b] {
          assert rest[a] == ks[a + 1] && rest[b] == ks[b + 1];
        }
      }
      if ks[0] !in spans {
        assert o == Scan(spans, rest, offset, length, covered, combined);
        ScanClosed(spans, rest, offset, length, covered, combined);
        forall j | 0 < j < |ks| ensures ks[j] == rest[j - 1] { }
      } else {
        var start := ks[0];
        var data := spans[start];
        var end := start + |data|;
        if !(start <= offset && end >= offset + length) && !(covered.Some? && start > covered.value.upper) {
          var next := if covered.Some? then Coverage(covered.value.lower, Max(covered.value.upper, end))
                      else Coverage(start, end);
          assert o == Scan(spans, rest, offset, length, Some(next), combined + data);
          ScanClosed(spans, rest, offset, length, Some(next), combined + data);
          forall j | 0 < j < |ks| ensures ks[j] == rest[j - 1] { }
        }
      }
    }
  }

  /**
   * Keys beyond the relevant slice cannot spoil a closed coverage that ends
   * short of the last relevant key's end: they all start after that key,
   * which itself starts above the coverage.
   */
  lemma ClosedBeyondRelevant(spans: Spans, ks: seq<int>, last: nat, upper: int)
    requires StrictlySorted(ks) && last < |ks| && EndOf(spans, ks[last]) > upper
    requires forall j :: 0 <= j <= last && ks[j] <= upper ==> EndOf(spans, ks[j]) <= upper
    ensures forall j :: 0 <= j < |ks| && ks[j] <= upper ==> EndOf(spans, ks[j]) <= upper
  {
    assert ks[last] > upper;
    forall j | last < j < |ks| ensures ks[j] > upper {
      assert ks[last] < ks[j];
    }
  }

  /**
   * Past the guards, coverage that the scan of the relevant keys closes
   * short of the request's end is closed among all stored spans.
   */
  lemma CoverageClosedAmongAll(spans: Spans, offset: int, length: int, relevant: seq<int>,
                               c: Coverage, combined: seq<Byte>)
    requires offset >= 0 && length >= 0 && GuardsPass(spans, offset, length)
    requires var ks := SortedKeys(spans.Keys);
             relevant == ks[0 .. LastReaching(spans, ks, offset + length, |ks|).value + 1]
    requires Scan(spans, relevant, offset, length, None, []) == Accumulated(Some(c), combined)
    requires c.upper < offset + length
    ensures forall k :: k in spans && k <= c.upper ==> k + |spans[k]| <= c.upper
  {
    var ks := SortedKeys(spans.Keys);
    var last := LastReaching(spans, ks, offset + length, |ks|).value;
    SortedKeysSorted(spans.Keys);
    assert StrictlySorted(relevant) by {
      forall a, b | 0 <= a < b < |relevant| ensures relevant[a] < relevant[b] {
        assert relevant[a] == ks[a] && relevant[b] == ks[b];
      }
    }
    ScanClosed(spans, relevant, offset, length, None, []);
    forall j | 0 <= j <= last && ks[j] <= c.upper ensures EndOf(spans, ks[j]) <= c.upper {
      assert relevant[j] == ks[j];
    }
    ClosedBeyondRelevant(spans, ks, last, c.upper);
    forall k | k in spans && k <= c.upper ensures k + |spans[k]| <= c.upper {
      SortedKeysComplete(spans.Keys, k);
      var j :| 0 <= j < |ks| && ks[j] == k;
      assert EndOf(spans, ks[j]) <= c.upper;
    }
  }

  /**
   * `getData` answers with the longest contiguously covered prefix of the
   * request: when a hit stops short of the end of the request, no stored span
   * starting at or before the hit's end reaches past it.
   */
  lemma HitIsLongestPrefix(stored: Option<Spans>, offset: int, length: int)
    requires offset >= 0 && length >= 0
    ensures var r := Query(stored, offset, length);
            r.Hit? && r.hi < offset + length ==>
              forall k :: k in stored.value && k <= r.hi ==> k + |stored.value[k]| <= r.hi
  {
    var r := Query(stored, offset, length);
    if stored.Some? && r.Hit? && r.hi < offset + length {
      var spans := stored.value;
      assert GuardsPass(spans, offset, length);
      var relevant := AnsweredFromRelevant(spans, offset, length);
      var o := Scan(spans, relevant, offset, length, None, []);
      assert r == Finish(o, offset, length);
      var c := o.covered.value;
      assert r.hi == c.upper;
      CoverageClosedAmongAll(spans, offset, length, relevant, c, o.combined);
    }
  }

  /**
   * `getData` answers nothing exactly when nothing is stored for the url, no
   * span starts at or before the offset, or no span reaches the end of the
   * request (lines 16-22); in every other case it answers with data or traps.
   */
  lemma QueryMissIff(stored: Option<Spans>, offset: int, length: int)
    requires offset >= 0 && length >= 0
    ensures Query(stored, offset, length) == Miss <==>
            (|| stored.None?
             || (forall k :: k in stored.value ==> k > offset)
             || (forall k :: k in stored.value ==> k + |stored.value[k]| < offset + length))
  {
    if stored.Some? {
      var spans := stored.value;
      MissIffGuardsFail(spans, offset, length);
      FirstFound(spans, offset);
      LastFound(spans, offset + length);
    }
  }

  /** The lookup answers nothing exactly when one of the two guards fails. */
  lemma MissIffGuardsFail(spans: Spans, offset: int, length: int)
    requires offset >= 0 && length >= 0
    ensures Query(Some(spans), offset, length) == Miss <==> !GuardsPass(spans, offset, length)
  {
    if GuardsPass(spans, offset, length) {
      var relevant := AnsweredFromRelevant(spans, offset, length);
      ScanFromStoredSpan(spans, relevant, offset, length);
    }
  }

  /**
   * Fast path (lines 32-36): when the span with the smallest start covers the
   * whole request, the answer is exactly the requested bytes of that span.
   */
  lemma FirstSpanCoversIsExact(spans: Spans, offset: int, length: int)
    requires offset >= 0 && length >= 0 && spans != map[]
    requires var k0 := SortedKeys(spans.Keys)[0];
             k0 <= offset && offset + length <= k0 + |spans[k0]|
    ensures var k0 := SortedKeys(spans.Keys)[0];
            Query(Some(spans), offset, length)
              == Hit(spans[k0][offset - k0 .. offset + length - k0], offset, offset + length)
  {
    var ks := SortedKeys(spans.Keys);
    SortedKeysMembers(spans.Keys);
    var first := FirstAtOrBelow(ks, offset, 0);
    assert first == Some(0);
    var last := LastReaching(spans, ks, offset + length, |ks|);
    LastReachingFinds(spans, ks, offset + length, |ks|, 0);
    assert GuardsPass(spans, offset, length);
    var relevant := AnsweredFromRelevant(spans, offset, length);
    assert relevant[0] == ks[0] && ks[0] in spans;
  }

  /** Storing into a url with no spans and reading inside the stored span yields exactly those bytes. */
  lemma SingleSpanExact(start: int, data: seq<Byte>, offset: int, length: int)
    requires offset >= 0 && length >= 0
    requires start <= offset && offset + length <= start + |data|
    ensures Query(Some(Insert(None, start, data)), offset, length)
            == Hit(data[offset - start .. offset + length - start], offset, offset + length)
  {
    var spans := Insert(None, start, data);
    assert spans.Keys == {start};
    SortedKeysComplete(spans.Keys, start);
    FirstSpanCoversIsExact(spans, offset, length);
  }

  /** ... and reading anything the single span does not cover finds nothing. */
  lemma SingleSpanMiss(start: int, data: seq<Byte>, offset: int, length: int)
    requires offset >= 0 && length >= 0
    requires offset < start || start + |data| < offset + length
    ensures Query(Some(Insert(None, start, data)), offset, length) == Miss
  {
    var spans := Insert(None, start, data);
    assert spans.Keys == {start};
    QueryMissIff(Some(spans), offset, length);
  }

  /** A later store at the same start replaces the earlier span (last write wins). */
  lemma InsertLastWriteWins(stored: Option<Spans>, start: int, first: seq<Byte>, second: seq<Byte>)
    ensures Insert(Some(Insert(stored, start, first)), start, second) == Insert(stored, start, second)
  {
  }

  /** Example: adjacent spans `[0,50)` and `[50,100)` answer `getData(10, 80)` with bytes and range `10..<90`. */
  lemma AdjacentSpansCoalesce(d1: seq<Byte>, d2: seq<Byte>)
    requires |d1| == 50 && |d2| == 50
    ensures Query(Some(map[0 := d1, 50 := d2]), 10, 80) == Hit((d1 + d2)[10..90], 10, 90)
  {
    var spans := map[0 := d1, 50 := d2];
    assert spans.Keys == {0, 50};
    SortedPair(0, 50);
    var ks := [0, 50];
    assert FirstAtOrBelow(ks, 10, 0) == Some(0);
    assert LastReaching(spans, ks, 90, 2) == Some(1);
    assert ks[0..2] == ks;
    var s1 := Scan(spans, [50], 10, 80, Some(Coverage(0, 50)), d1);
    assert s1 == Scan(spans, [], 10, 80, Some(Coverage(0, 100)), d1 + d2);
    assert Scan(spans, ks, 10, 80, None, []) == s1;
    assert Query(Some(spans), 10, 80) == Finish(s1, 10, 80);
  }

  /** Example: spans `[0,50)` and `[80,120)` answer `getData(0, 100)` with range `0..<50`: the scan stops at the gap. */
  lemma GapStopsCoverage(d1: seq<Byte>, d2: seq<Byte>)
    requires |d1| == 50 && |d2| == 40
    ensures Query(Some(map[0 := d1, 80 := d2]), 0, 100) == Hit(d1, 0, 50)
  {
    var spans := map[0 := d1, 80 := d2];
    assert spans.Keys == {0, 80};
    SortedPair(0, 80);
    var ks := [0, 80];
    assert FirstAtOrBelow(ks, 0, 0) == Some(0);
    assert LastReaching(spans, ks, 100, 2) == Some(1);
    assert ks[0..2] == ks;
    var s1 := Scan(spans, [80], 0, 100, Some(Coverage(0, 50)), d1);
    assert s1 == Accumulated(Some(Coverage(0, 50)), d1);
    assert Scan(spans, ks, 0, 100, None, []) == s1;
    assert d1[0..50] == d1;
  }

  /**
   * The trap of lines 52-55: when the scan stops at a gap that lies before the
   * requested offset, the clipped slice has its lower bound above its upper
   * bound. Spans `[0,10)`, `[50,60)`, `[60,80)` and `getData(55, 20)` trap.
   */
  lemma GapBeforeOffsetTraps(d1: seq<Byte>, d2: seq<Byte>, d3: seq<Byte>)
    requires |d1| == 10 && |d2| == 10 && |d3| == 20
    ensures Query(Some(map[0 := d1, 50 := d2, 60 := d3]), 55, 20) == Trap
  {
    var spans := map[0 := d1, 50 := d2, 60 := d3];
    assert spans.Keys == {0, 50, 60};
    SortedTriple(0, 50, 60);
    var ks := [0, 50, 60];
    assert FirstAtOrBelow(ks, 55, 0) == Some(0);
    assert LastReaching(spans, ks, 75, 3) == Some(2);
    assert ks[0..3] == ks;
    var s1 := Scan(spans, [50, 60], 55, 20, Some(Coverage(0, 10)), d1);
    assert s1 == Accumulated(Some(Coverage(0, 10)), d1);
    assert Scan(spans, ks, 55, 20, None, []) == s1;
  }

  /** No two stored spans overlap: every span ends at or before the next one starts. */
  ghost predicate Disjoint(spans: Spans)
  {
    forall a, b {:trigger spans[a], spans[b]} :: a in spans && b in spans && a < b ==> a + |spans[a]| <= b
  }

  /** Byte `b` is the byte some stored span holds at resource position `p`. */
  ghost predicate StoredAt(spans: Spans, p: int, b: Byte)
  {
    exists k :: k in spans && k <= p < k + |spans[k]| && spans[k][p - k] == b
  }

  /** `combined` holds, position by position, the stored bytes of the interval `c`. */
  ghost predicate Contiguous(spans: Spans, c: Coverage, combined: seq<Byte>)
  {
    && |combined| == c.upper - c.lower
    && forall i :: 0 <= i < |combined| ==> StoredAt(spans, c.lower + i, combined[i])
  }

  lemma SliceIsStored(spans: Spans, k: int, offset: int, length: int, slice: seq<Byte>)
    requires k in spans && 0 <= length && k <= offset && offset + length <= k + |spans[k]|
    requires slice == spans[k][offset - k .. offset + length - k]
    ensures |slice| == length
    ensures forall i :: 0 <= i < |slice| ==> StoredAt(spans, offset + i, slice[i])
  {
    forall i | 0 <= i < |slice| ensures StoredAt(spans, offset + i, slice[i]) {
      assert slice[i] == spans[k][offset + i - k];
    }
  }

  lemma AppendContiguous(spans: Spans, c: Coverage, combined: seq<Byte>, start: int)
    requires Contiguous(spans, c, combined) && start in spans && start == c.upper
    ensures Contiguous(spans, Coverage(c.lower, start + |spans[start]|), combined + spans[start])
  {
    var d := spans[start];
    forall i | 0 <= i < |combined + d|
      ensures StoredAt(spans, c.lower + i, (combined + d)[i])
    {
      if i < |combined| {
        assert (combined + d)[i] == combined[i];
      } else {
        assert (combined + d)[i] == d[i - |combined|];
        assert c.lower + i - start == i - |combined|;
      }
    }
  }

  /**
   * Over disjoint spans, every step of the scan keeps the accumulated bytes
   * aligned with the accumulated coverage, and the fast path slices stored bytes.
   */
  lemma {:induction false} ScanOverDisjoint(spans: Spans, ks: seq<int>, offset: int, length: int,
                                           c: Coverage, combined: seq<Byte>)
    requires length >= 0 && Disjoint(spans) && StrictlySorted(ks)
    requires forall j :: 0 <= j < |ks| ==> ks[j] in spans && ks[j] >= c.upper
    requires Contiguous(spans, c, combined)
    ensures var o := Scan(spans, ks, offset, length, Some(c), combined);
            && (o.Exact? ==> |o.data| == length
                             && forall i :: 0 <= i < length ==> StoredAt(spans, offset + i, o.data[i]))
            && (o.Accumulated? ==> && o.covered.Some? && o.covered.value.lower == c.lower
                                   && Contiguous(spans, o.covered.value, o.combined))
    decreases |ks|
  {
    if ks != [] {
      var start := ks[0];
      var end := start + |spans[start]|;
      if start <= offset && end >= offset + length {
        SliceIsStored(spans, start, offset, length, spans[start][offset - start .. offset + length - start]);
      } else if start <= c.upper {
        assert start == c.upper;
        var next := Coverage(c.lower, Max(c.upper, end));
        assert next == Coverage(c.lower, end);
        AppendContiguous(spans, c, combined, start);
        forall j | 0 <= j < |ks[1..]| ensures ks[1..][j] in spans && ks[1..][j] >= next.upper {
          assert ks[1..][j] == ks[j + 1] && start < ks[j + 1];
        }
        ScanOverDisjoint(spans, ks[1..], offset, length, next, combined + spans[start]);
      }
    }
  }

  /** The scan of the relevant keys, from its first span on, over disjoint spans. */
  lemma ScanRelevantOverDisjoint(spans: Spans, relevant: seq<int>, offset: int, length: int)
    requires length >= 0 && Disjoint(spans) && StrictlySorted(relevant) && relevant != []
    requires forall j :: 0 <= j < |relevant| ==> relevant[j] in spans
    requires relevant[0] <= offset
    ensures var o := Scan(spans, relevant, offset, length, None, []);
            && (o.Exact? ==> |o.data| == length
                             && forall i :: 0 <= i < length ==> StoredAt(spans, offset + i, o.data[i]))
            && (o.Accumulated? ==> && o.covered.Some? && o.covered.value.lower <= offset
                                   && Contiguous(spans, o.covered.value, o.combined))
  {
    var start := relevant[0];
    var end := start + |spans[start]|;
    var o := Scan(spans, relevant, offset, length, None, []);
    if start <= offset && end >= offset + length {
      SliceIsStored(spans, start, offset, length, spans[start][offset - start .. offset + length - start]);
    } else {
      var c := Coverage(start, end);
      assert o == Scan(spans, relevant[1..], offset, length, Some(c), [] + spans[start]);
      assert Contiguous(spans, c, [] + spans[start]) by {
        forall i | 0 <= i < |spans[start]| ensures StoredAt(spans, start + i, ([] + spans[start])[i]) {
          assert start + i - start == i;
        }
      }
      forall j | 0 <= j < |relevant[1..]| ensures relevant[1..][j] in spans && relevant[1..][j] >= c.upper {
        assert relevant[1..][j] == relevant[j + 1] && start < relevant[j + 1];
      }
      ScanOverDisjoint(spans, relevant[1..], offset, length, c, [] + spans[start]);
    }
  }

  /** A hit reports as many bytes as its range is long, each the stored byte at its position. */
  ghost predicate ReportsStored(spans: Spans, r: Lookup)
  {
    r.Hit? ==> |r.data| == r.hi - r.lo && forall i :: 0 <= i < |r.data| ==> StoredAt(spans, r.lo + i, r.data[i])
  }

  /** Clipping aligned coverage to the request keeps bytes and positions aligned. */
  lemma ClipContiguous(spans: Spans, c: Coverage, combined: seq<Byte>, offset: int, length: int)
    requires length >= 0 && c.lower <= offset && Contiguous(spans, c, combined)
    ensures ReportsStored(spans, Clip(c, combined, offset, length))
  {
    var r := Clip(c, combined, offset, length);
    if r.Hit? {
      var startDelta := offset - c.lower;
      forall i | 0 <= i < |r.data| ensures StoredAt(spans, r.lo + i, r.data[i]) {
        assert r.data[i] == combined[startDelta + i];
      }
    }
  }

  /**
   * When no two stored spans overlap, the bytes `getData` returns are exactly
   * the stored bytes of the range it reports, one for one.
   */
  lemma HitBytesAreStored(spans: Spans, offset: int, length: int)
    requires offset >= 0 && length >= 0 && Disjoint(spans)
    ensures ReportsStored(spans, Query(Some(spans), offset, length))
  {
    if Query(Some(spans), offset, length) != Miss {
      assert GuardsPass(spans, offset, length);
      var relevant := AnsweredFromRelevant(spans, offset, length);
      ScanRelevantOverDisjoint(spans, relevant, offset, length);
      FinishBytesAreStored(spans, Scan(spans, relevant, offset, length, None, []), offset, length);
    }
  }

  /**
   * A lookup that passes both guards scans a sorted run of stored keys that
   * starts at or before the offset (the first index is always 0).
   */
  lemma AnsweredFromRelevant(spans: Spans, offset: int, length: int) returns (relevant: seq<int>)
    requires offset >= 0 && length >= 0 && GuardsPass(spans, offset, length)
    ensures relevant != [] && relevant[0] <= offset && StrictlySorted(relevant)
    ensures forall j :: 0 <= j < |relevant| ==> relevant[j] in spans
    ensures Query(Some(spans), offset, length) == Finish(Scan(spans, relevant, offset, length, None, []), offset, length)
    ensures var ks := SortedKeys(spans.Keys);
            relevant == ks[0 .. LastReaching(spans, ks, offset + length, |ks|).value + 1]
  {
    var ks := SortedKeys(spans.Keys);
    var first := FirstAtOrBelow(ks, offset, 0);
    var last := LastReaching(spans, ks, offset + length, |ks|);
    SortedKeysSorted(spans.Keys);
    SortedKeysMembers(spans.Keys);
    FirstIsSmallest(ks, offset);
    relevant := ks[0 .. last.value + 1];
    assert relevant[0] == ks[0];
    forall j | 0 <= j < |relevant| ensures relevant[j] in spans {
      assert relevant[j] == ks[j];
    }
  }

  /** Every key whose span reaches the end of the request lies in the run of keys the scan visits. */
  lemma ReachingKeyIsRelevant(spans: Spans, offset: int, length: int, relevant: seq<int>, k: int)
    requires GuardsPass(spans, offset, length)
    requires var ks := SortedKeys(spans.Keys);
             relevant == ks[0 .. LastReaching(spans, ks, offset + length, |ks|).value + 1]
    requires k in spans && k + |spans[k]| >= offset + length
    ensures k in relevant
  {
    var ks := SortedKeys(spans.Keys);
    SortedKeysComplete(spans.Keys, k);
    var j :| 0 <= j < |ks| && ks[j] == k;
    assert EndOf(spans, ks[j]) >= offset + length;
    LastReachingFinds(spans, ks, offset + length, |ks|, j);
    assert relevant[j] == k;
  }

  /** The answer built from a scan over disjoint spans reports stored bytes only. */
  lemma FinishBytesAreStored(spans: Spans, o: ScanOutcome, offset: int, length: int)
    requires length >= 0
    requires o.Exact? ==> |o.data| == length && forall i :: 0 <= i < length ==> StoredAt(spans, offset + i, o.data[i])
    requires o.Accumulated? ==> && o.covered.Some? && o.covered.value.lower <= offset
                                && Contiguous(spans, o.covered.value, o.combined)
    ensures ReportsStored(spans, Finish(o, offset, length))
  {
    if o.Accumulated? {
      ClipContiguous(spans, o.covered.value, o.combined, offset, length);
    }
  }

  /**
   * Over disjoint spans, a scan whose keys include a span `k` covering the
   * request either reaches `k` and slices it, or stops at a gap before `k`
   * with coverage that ends before the offset.
   */
  lemma {:induction false} ScanTowardsCovering(spans: Spans, ks: seq<int>, offset: int, length: int,
                                              covered: Option<Coverage>, combined: seq<Byte>, k: int)
    requires length >= 0 && Disjoint(spans) && StrictlySorted(ks)
    requires forall j :: 0 <= j < |ks| ==> ks[j] in spans
    requires k in ks && k in spans && k <= offset && offset + length <= k + |spans[k]|
    requires covered.Some? ==> covered.value.upper <= ks[0]
    ensures var o := Scan(spans, ks, offset, length, covered, combined);
            || o == Exact(spans[k][offset - k .. offset + length - k])
            || (o.Accumulated? && o.covered.Some? && o.covered.value.upper < offset)
    decreases |ks|
  {
    var start := ks[0];
    assert start in spans;
    var end := start + |spans[start]|;
    var j :| 0 <= j < |ks| && ks[j] == k;
    if start <= offset && end >= offset + length {
      if start != k {
        assert start < k && end <= k;
      }
    } else if covered.Some? && start > covered.value.upper {
      assert start <= k;
    } else {
      assert 0 < j;
      assert ks[1] in spans && start < ks[1] <= k;
      assert end <= ks[1];
      var next := Coverage(if covered.Some? then covered.value.lower else start, end);
      assert Scan(spans, ks, offset, length, covered, combined)
          == Scan(spans, ks[1..], offset, length, Some(next), combined + spans[start]);
      assert ks[1..][j - 1] == k;
      forall i | 0 <= i < |ks[1..]| ensures ks[1..][i] in spans {
        assert ks[1..][i] == ks[i + 1];
      }
      ScanTowardsCovering(spans, ks[1..], offset, length, Some(next), combined + spans[start], k);
    }
  }

  /**
   * Over disjoint spans, a request that lies inside one stored span is
   * answered with exactly its bytes, or traps: when a gap lies between the
   * smallest span and the covering one, the scan stops there and the clipped
   * slice has its lower bound above its upper bound.
   */
  lemma CoveredRequestIsExactOrTraps(spans: Spans, offset: int, length: int, k: int)
    requires offset >= 0 && length >= 0 && Disjoint(spans)
    requires k in spans && k <= offset && offset + length <= k + |spans[k]|
    ensures var r := Query(Some(spans), offset, length);
            r == Hit(spans[k][offset - k .. offset + length - k], offset, offset + length) || r == Trap
  {
    var relevant := CoveringKeyIsScanned(spans, offset, length, k);
    ScanTowardsCovering(spans, relevant, offset, length, None, [], k);
    ScanFromStoredSpan(spans, relevant, offset, length);
  }

  /** A span covering the request passes both guards and lies in the run of keys the scan visits. */
  lemma CoveringKeyIsScanned(spans: Spans, offset: int, length: int, k: int) returns (relevant: seq<int>)
    requires offset >= 0 && length >= 0
    requires k in spans && k <= offset && offset + length <= k + |spans[k]|
    ensures relevant != [] && StrictlySorted(relevant) && k in relevant
    ensures forall j :: 0 <= j < |relevant| ==> relevant[j] in spans
    ensures Query(Some(spans), offset, length) == Finish(Scan(spans, relevant, offset, length, None, []), offset, length)
  {
    FirstFound(spans, offset);
    LastFound(spans, offset + length);
    assert GuardsPass(spans, offset, length);
    relevant := AnsweredFromRelevant(spans, offset, length);
    ReachingKeyIsRelevant(spans, offset, length, relevant, k);
  }

  /**
   * Example: spans `[0,10)`, `[20,30)` and `[40,100)` with `getData(50, 10)`:
   * the request lies inside the third span, yet the scan stops at the gap
   * after the first one and the lookup traps.
   */
  lemma CoveredBehindGapsTraps(d1: seq<Byte>, d2: seq<Byte>, d3: seq<Byte>)
    requires |d1| == 10 && |d2| == 10 && |d3| == 60
    ensures Query(Some(map[0 := d1, 20 := d2, 40 := d3]), 50, 10) == Trap
  {
    var spans := map[0 := d1, 20 := d2, 40 := d3];
    assert spans.Keys == {0, 20, 40};
    SortedTriple(0, 20, 40);
    var ks := [0, 20, 40];
    assert FirstAtOrBelow(ks, 50, 0) == Some(0);
    assert LastReaching(spans, ks, 60, 3) == Some(2);
    assert ks[0..3] == ks;
    var s1 := Scan(spans, [20, 40], 50, 10, Some(Coverage(0, 10)), d1);
    assert s1 == Accumulated(Some(Coverage(0, 10)), d1);
    assert Scan(spans, ks, 50, 10, None, []) == s1;
  }

  /**
   * Example of the duplication at line 48: spans `[0,50)` and `[10,70)` overlap,
   * and `getData(0, 70)` appends both whole, so the byte it reports at position
   * 50 is the one stored for position 10, not the one stored for position 50.
   */
  lemma OverlapDuplicatesBytes(a: seq<Byte>, b: seq<Byte>)
    requires |a| == 50 && |b| == 60 && b[0] != b[40]
    ensures var r := Query(Some(map[0 := a, 10 := b]), 0, 70);
            && r == Hit((a + b)[0..70], 0, 70)
            && r.data[50] == b[0]
            && !StoredAt(map[0 := a, 10 := b], 50, r.data[50])
  {
    OverlapAppendsBoth(a, b);
    assert (a + b)[0..70][50] == b[0];
    assert map[0 := a, 10 := b].Keys == {0, 10};
  }

  /** The lookup of that example: both overlapping spans are appended whole, then clipped to `0..<70`. */
  lemma OverlapAppendsBoth(a: seq<Byte>, b: seq<Byte>)
    requires |a| == 50 && |b| == 60
    ensures Query(Some(map[0 := a, 10 := b]), 0, 70) == Hit((a + b)[0..70], 0, 70)
  {
    var spans := map[0 := a, 10 := b];
    assert spans.Keys == {0, 10};
    SortedPair(0, 10);
    var ks := [0, 10];
    assert FirstAtOrBelow(ks, 0, 0) == Some(0);
    assert LastReaching(spans, ks, 70, 2) == Some(1);
    assert ks[0..2] == ks;
    var s1 := Scan(spans, [10], 0, 70, Some(Coverage(0, 50)), a);
    assert s1 == Scan(spans, [], 0, 70, Some(Coverage(0, 70)), a + b);
    assert Scan(spans, ks, 0, 70, None, []) == s1;
    assert Query(Some(spans), 0, 70) == Finish(s1, 0, 70);
  }
}
