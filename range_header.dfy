/**
 * The `Range` header of the outbound fetch: an open-ended byte range
 * `bytes=N-` (section 14.1.2 of RFC 9110), where N is the decimal first
 * position of the range.
 */
module RangeHeader {
  import opened Common

  predicate IsDigit(c: char)
  {
    '0' <= c <= '9'
  }

  function DigitChar(d: nat): (c: char)
    requires d < 10
    ensures IsDigit(c) && c as int - '0' as int == d
  {
    ('0' as int + d) as char
  }

  /** The decimal spelling of `n` (Swift string interpolation of a non-negative integer). */
  function Decimal(n: nat): (s: string)
    ensures |s| >= 1
    ensures forall i :: 0 <= i < |s| ==> IsDigit(s[i])
    decreases n
  {
    if n < 10 then [DigitChar(n)] else Decimal(n / 10) + [DigitChar(n % 10)]
  }

  /** Reads a non-empty run of decimal digits; None for anything else. */
  function ParseDecimal(s: string): Option<nat>
    decreases |s|
  {
    if s == [] || !IsDigit(s[|s| - 1]) then None
    else
      var d := s[|s| - 1] as int - '0' as int;
      if |s| == 1 then Some(d)
      else
        match ParseDecimal(s[..|s| - 1])
        case None => None
        case Some(v) => Some(v * 10 + d)
  }

  /** The header value `bytes={offset}-` that `startDownloadIfNeeded(from:)` sets. */
  function OpenEndedRange(offset: nat): string
  {
    "bytes=" + Decimal(offset) + "-"
  }

  /** Reads a `bytes=N-` header value back to N. */
  function ParseOpenEndedRange(h: string): Option<nat>
  {
    if |h| >= 8 && h[..6] == "bytes=" && h[|h| - 1] == '-' then ParseDecimal(h[6..|h| - 1]) else None
  }

  lemma {:induction false} DecimalRoundTrip(n: nat)
    ensures ParseDecimal(Decimal(n)) == Some(n)
    decreases n
  {
    if n >= 10 {
      var s := Decimal(n);
      assert s[..|s| - 1] == Decimal(n / 10);
      DecimalRoundTrip(n / 10);
    }
  }

  /** The header the fetch sends names exactly the offset it was asked to start from. */
  lemma {:induction false} OpenEndedRangeRoundTrip(offset: nat)
    ensures ParseOpenEndedRange(OpenEndedRange(offset)) == Some(offset)
  {
    var h := OpenEndedRange(offset);
    assert h[..6] == "bytes=";
    assert h[6..|h| - 1] == Decimal(offset);
    DecimalRoundTrip(offset);
  }
}
