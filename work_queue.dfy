/** The work queue: the inclusive range of release ids mapped, in ascending
    order, to the marketplace listing URLs the workers fetch. */
module WorkQueue {
  import opened Wrappers
  import Text
  import Numbers

  const UrlHead: string := "https://www.discogs.com/sell/release/"
  const UrlTail: string := "?ev=rb&limit=250"

  function DigitChar(d: nat): (c: char)
    requires d < 10
    ensures Numbers.IsDigit(c) && Numbers.DigitValue(c) == d
  {
    ('0' as int + d) as char
  }

  /** `str(n)` for a natural number: its decimal digits, most significant first. */
  function NatToString(n: nat): (r: string)
    ensures |r| > 0 && Numbers.AllDigits(r)
  {
    if n < 10 then [DigitChar(n)] else NatToString(n / 10) + [DigitChar(n % 10)]
  }

  /** `str(i)` for any integer: a `-` before the digits of a negative number. */
  function IntToString(i: int): string {
    if i < 0 then "-" + NatToString(-i) else NatToString(i)
  }

  /** The listing URL for release `id` (line 58). */
  function UrlOf(id: int): string {
    UrlHead + IntToString(id) + UrlTail
  }

  /** q holds the URLs of start, start + 1, ..., stop in that order, and
      nothing when the range is empty. */
  ghost predicate IsUrlRange(q: seq<string>, start: int, stop: int) {
    && |q| == (if start <= stop then stop - start + 1 else 0)
    && forall k :: 0 <= k < |q| ==> q[k] == UrlOf(start + k)
  }

  /** `fill_queue_with_urls`: one URL per id of `range(start, stop + 1)`,
      put in ascending order; distinct ids give distinct URLs, so no page is
      queued twice. */
  method FillQueueWithUrls(start: int, stop: int) returns (q: seq<string>)
    ensures IsUrlRange(q, start, stop)
    ensures forall j, k :: 0 <= j < k < |q| ==> q[j] != q[k]
  {
    q := [];
    var i := start;
    while i < stop + 1
      invariant i == start || start <= i <= stop + 1
      invariant |q| == i - start
      invariant forall k :: 0 <= k < |q| ==> q[k] == UrlOf(start + k)
    {
      var url := UrlOf(i);
      assert forall k :: 0 <= k < |q| ==> (q + [url])[k] == q[k];
      q := q + [url];
      i := i + 1;
    }
    UrlRangeIsDistinct(q, start, stop);
  }

  /** A URL range queues no page twice. */
  lemma UrlRangeIsDistinct(q: seq<string>, start: int, stop: int)
    requires IsUrlRange(q, start, stop)
    ensures forall j, k :: 0 <= j < k < |q| ==> q[j] != q[k]
  {
    forall j, k | 0 <= j < k < |q|
      ensures q[j] != q[k]
    {
      UrlOfInjective(start + j, start + k);
    }
  }

  // ---------------------------------------------------------------------------
  // Reading the id back out of its URL

  lemma {:induction false} MantissaOfNatToString(n: nat)
    ensures Numbers.Mantissa(NatToString(n)) == n
  {
    var r := NatToString(n);
    if n < 10 {
      assert r[..0] == [];
    } else {
      MantissaOfNatToString(n / 10);
      assert r[..|r| - 1] == NatToString(n / 10);
    }
  }

  lemma {:induction false} FracDigitsWithoutDot(u: string)
    requires '.' !in u
    ensures Numbers.FracDigits(u) == 0
  {
    if u != [] {
      assert u[0] != '.';
      FracDigitsWithoutDot(u[1..]);
    }
  }

  /** Reading `str(i)` as a number gives i back. */
  lemma TokenValueOfIntToString(i: int)
    ensures Numbers.TokenValue(IntToString(i)) == i as real
  {
    var n: nat := if i < 0 then -i else i;
    var digits := NatToString(n);
    MantissaOfNatToString(n);
    FracDigitsWithoutDot(digits);
    if i < 0 {
      assert IntToString(i)[1..] == digits;
    } else {
      assert Numbers.IsDigit(digits[0]);
    }
  }

  /** The fixed parts of the URL hold no number. */
  lemma UrlHeadPlain(s: string, p: nat)
    requires UrlHead <= s && p < |UrlHead|
    ensures Numbers.MatchAt(s, p).None?
  {
    assert s[p] == UrlHead[p];
    assert forall k :: 0 <= k < |UrlHead| ==> !Numbers.IsDigit(UrlHead[k]) && !Numbers.IsSign(UrlHead[k]);
    if s[p] == '.' {
      assert UrlHead[|UrlHead| - 1] == '/';
      assert s[p + 1] == UrlHead[p + 1];
    }
    Numbers.NoMatchAtPlainChar(s, p);
  }

  lemma NoCommaInUrl(id: int)
    ensures ',' !in UrlOf(id)
  {
    var n: nat := if id < 0 then -id else id;
    assert forall k :: 0 <= k < |NatToString(n)| ==> Numbers.IsDigit(NatToString(n)[k]);
    assert ',' !in NatToString(n);
    assert ',' !in UrlHead && ',' !in UrlTail;
  }

  /** In a URL the match at the start of the id covers exactly `str(id)`. */
  lemma MatchAtId(id: int)
    ensures var h := |UrlHead|;
      h + |IntToString(id)| <= |UrlOf(id)| &&
      Numbers.MatchAt(UrlOf(id), h) == Some(h + |IntToString(id)|)
  {
    var url, h, str := UrlOf(id), |UrlHead|, IntToString(id);
    var n: nat := if id < 0 then -id else id;
    var end := h + |str|;
    assert url[end] == UrlTail[0] == '?';
    var first := if id < 0 then h + 1 else h;
    forall k | first <= k < end
      ensures Numbers.IsDigit(url[k])
    {
      assert url[k] == NatToString(n)[k - first];
    }
    Numbers.DigitEndOfRun(url, first, end);
    if id >= 0 {
      assert url[h] == NatToString(n)[0];
    } else {
      assert url[h] == '-';
    }
  }

  /** `get_float` applied to a queued URL reads back the release id: the
      head holds no number and the id's token ends at the `?` of the tail. */
  lemma GetFloatOfUrl(id: int)
    ensures Numbers.GetFloat(UrlOf(id)) == Some(id as real)
  {
    var url, h, str := UrlOf(id), |UrlHead|, IntToString(id);
    NoCommaInUrl(id);
    Text.RemoveAbsent(url, ',');
    assert UrlHead <= url;
    forall p | 0 <= p < h
      ensures Numbers.MatchAt(url, p).None?
    {
      UrlHeadPlain(url, p);
    }
    Numbers.FirstMatchSkips(url, 0, h);
    MatchAtId(id);
    assert Numbers.FirstMatch(url, 0) == Some((h, h + |str|));
    assert url[h..h + |str|] == str;
    TokenValueOfIntToString(id);
  }

  /** Distinct ids give distinct URLs. */
  lemma UrlOfInjective(a: int, b: int)
    requires a != b
    ensures UrlOf(a) != UrlOf(b)
  {
    GetFloatOfUrl(a);
    GetFloatOfUrl(b);
  }
}
