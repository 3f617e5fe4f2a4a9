/** The numeric-token parser `get_float`: delete every `,`, take the leftmost
    match of the regular expression `[-+]?(?:\d*\.\d+|\d+)` and read it as a
    decimal number. The match is found by a character scanner that tries the
    pattern's parts in the order Python's regex engine does; the number is
    computed exactly, as a real, instead of as an IEEE double. */
module Numbers {
  import opened Wrappers
  import Text

  predicate IsDigit(c: char) {
    '0' <= c <= '9'
  }

  predicate IsSign(c: char) {
    c == '+' || c == '-'
  }

  /** s holds a digit somewhere. */
  predicate HasDigit(s: string) {
    exists i :: 0 <= i < |s| && IsDigit(s[i])
  }

  // ---------------------------------------------------------------------------
  // The scanner

  /** The end of the longest run of digits that starts at i (i itself when
      there is no digit at i): what the greedy `\d*` consumes. */
  function DigitEnd(s: string, i: nat): (e: nat)
    requires i <= |s|
    ensures i <= e <= |s|
    ensures forall k :: i <= k < e ==> IsDigit(s[k])
    ensures e == |s| || !IsDigit(s[e])
    decreases |s| - i
  {
    if i < |s| && IsDigit(s[i]) then DigitEnd(s, i + 1) else i
  }

  /** Where a match of `\d*\.\d+|\d+` that starts at q ends. The first
      alternative is tried first: the greedy `\d*`, then a `.` and at least one
      digit (giving back digits of `\d*` cannot help, since a digit is not a
      `.`). Only when that fails is `\d+` tried. None when neither matches. */
  function UnsignedEnd(s: string, q: nat): (r: Option<nat>)
    requires q <= |s|
    ensures r.Some? ==> q < r.value <= |s|
  {
    var d := DigitEnd(s, q);
    if d + 1 < |s| && s[d] == '.' && IsDigit(s[d + 1]) then Some(DigitEnd(s, d + 1))
    else if q < d then Some(d)
    else None
  }

  /** Where a match of the whole pattern that starts at p ends. A sign at p is
      taken when the rest matches after it; when it does not, the engine drops
      the optional sign and tries the rest at p itself, which fails because a
      sign is neither a digit nor a `.`. */
  function MatchAt(s: string, p: nat): (r: Option<nat>)
    requires p <= |s|
    ensures r.Some? ==> p < r.value <= |s|
  {
    if p < |s| && IsSign(s[p]) then UnsignedEnd(s, p + 1) else UnsignedEnd(s, p)
  }

  /** The leftmost match at or after `from`, as (start, end): the first
      element of `re.findall`. Every position before its start fails to match. */
  function FirstMatch(s: string, from: nat): (r: Option<(nat, nat)>)
    requires from <= |s|
    ensures r.Some? ==> from <= r.value.0 < r.value.1 <= |s| && MatchAt(s, r.value.0) == Some(r.value.1)
    ensures r.Some? ==> forall q :: from <= q < r.value.0 ==> MatchAt(s, q).None?
    ensures r.None? ==> forall q :: from <= q <= |s| ==> MatchAt(s, q).None?
    decreases |s| - from
  {
    match MatchAt(s, from)
    case Some(e) => Some((from, e))
    case None => if from == |s| then None else FirstMatch(s, from + 1)
  }

  // ---------------------------------------------------------------------------
  // The value of a token: what `float(...)` reads, without rounding

  function DigitValue(c: char): nat
    requires IsDigit(c)
  {
    c as int - '0' as int
  }

  function Pow10(n: nat): (r: nat)
    ensures r >= 1
  {
    if n == 0 then 1 else 10 * Pow10(n - 1)
  }

  /** The digits of u read as one decimal integer, the `.` skipped. */
  function Mantissa(u: string): nat {
    if u == [] then 0
    else
      var m := Mantissa(u[..|u| - 1]);
      if IsDigit(u[|u| - 1]) then 10 * m + DigitValue(u[|u| - 1]) else m
  }

  /** The number of characters after the first `.` of u (0 when there is none). */
  function FracDigits(u: string): nat {
    if u == [] then 0 else if u[0] == '.' then |u| - 1 else FracDigits(u[1..])
  }

  /** The exact value of an unsigned token `\d*\.\d+` or `\d+`. */
  function UnsignedValue(u: string): real {
    Mantissa(u) as real / Pow10(FracDigits(u)) as real
  }

  /** The exact value of a token of the whole pattern. */
  function TokenValue(t: string): real {
    if |t| > 0 && t[0] == '-' then -UnsignedValue(t[1..])
    else if |t| > 0 && t[0] == '+' then UnsignedValue(t[1..])
    else UnsignedValue(t)
  }

  /** `get_float`: the value of the leftmost token once every `,` is deleted;
      None where the source's `[0]` on an empty match list raises. */
  function GetFloat(s: string): Option<real> {
    var t := Text.Remove(s, ',');
    match FirstMatch(t, 0)
    case None => None
    case Some((p, e)) => Some(TokenValue(t[p..e]))
  }

  // ---------------------------------------------------------------------------
  // The pattern as a language, independently of the scanner

  ghost predicate AllDigits(u: string) {
    forall i :: 0 <= i < |u| ==> IsDigit(u[i])
  }

  /** u splits at k into digits, a `.` and at least one more digit. */
  ghost predicate DotSplit(u: string, k: int) {
    0 <= k < |u| - 1 && u[k] == '.' && AllDigits(u[..k]) && AllDigits(u[k + 1..])
  }

  /** u is a word of `\d*\.\d+|\d+`. */
  ghost predicate IsUnsignedToken(u: string) {
    (|u| > 0 && AllDigits(u)) || exists k :: DotSplit(u, k)
  }

  /** t is a word of `[-+]?(?:\d*\.\d+|\d+)`. */
  ghost predicate IsToken(t: string) {
    || IsUnsignedToken(t)
    || (|t| > 0 && IsSign(t[0]) && IsUnsignedToken(t[1..]))
  }

  /** No token occurs anywhere in t. */
  ghost predicate NoToken(t: string) {
    forall q, e :: 0 <= q <= e <= |t| ==> !IsToken(t[q..e])
  }

  /** t[p..e] is the leftmost token of t, and the longest one at its start. */
  ghost predicate IsLeftmostLongest(t: string, p: int, e: int) {
    && 0 <= p < e <= |t|
    && IsToken(t[p..e])
    && (forall e' :: e < e' <= |t| ==> !IsToken(t[p..e']))
    && (forall q, e' :: 0 <= q < p && q <= e' <= |t| ==> !IsToken(t[q..e']))
  }

  lemma AllDigitsSlice(s: string, i: nat, j: nat)
    requires i <= j <= |s|
    ensures AllDigits(s[i..j]) <==> j <= DigitEnd(s, i)
  {
    var d := DigitEnd(s, i);
    if j > d {
      assert s[i..j][d - i] == s[d];
    }
  }

  /** A token s[q..e] with a `.` at offset k has that `.` exactly where the
      digits at q end. */
  lemma DotSplitAt(s: string, q: nat, e: nat, k: nat)
    requires q <= e <= |s|
    ensures var d := DigitEnd(s, q);
      DotSplit(s[q..e], k) <==>
        (q + k == d && d + 1 < e && s[d] == '.' && e <= DigitEnd(s, d + 1))
  {
    var u, d := s[q..e], DigitEnd(s, q);
    if k < |u| - 1 {
      assert u[..k] == s[q..q + k];
      assert u[k] == s[q + k];
      assert u[k + 1..] == s[q + k + 1..e];
      AllDigitsSlice(s, q, q + k);
      AllDigitsSlice(s, q + k + 1, e);
    }
  }

  /** The unsigned tokens that start at q are the digit runs (q, d] and, when a
      `.` stands at d, the runs (d + 1, DigitEnd(s, d + 1)], where d ends the
      digits at q. */
  lemma UnsignedTokenAt(s: string, q: nat, e: nat)
    requires q <= e <= |s|
    ensures var d := DigitEnd(s, q);
      IsUnsignedToken(s[q..e]) <==>
        || q < e <= d
        || (d + 1 < e && s[d] == '.' && e <= DigitEnd(s, d + 1))
  {
    var d := DigitEnd(s, q);
    AllDigitsSlice(s, q, e);
    if exists k :: DotSplit(s[q..e], k) {
      var k :| DotSplit(s[q..e], k);
      DotSplitAt(s, q, e, k);
    }
    if d + 1 < e && s[d] == '.' && e <= DigitEnd(s, d + 1) {
      DotSplitAt(s, q, e, d - q);
    }
  }

  /** The scanner's match at p is a token, and no token that starts at p is
      longer: Python's first-alternative, greedy match is the longest one here. */
  lemma MatchAtIsLongestToken(s: string, p: nat)
    requires p <= |s|
    ensures MatchAt(s, p).Some? ==> IsToken(s[p..MatchAt(s, p).value])
    ensures forall e :: p <= e <= |s| && IsToken(s[p..e]) ==> MatchAt(s, p).Some? && e <= MatchAt(s, p).value
  {
    var signed := p < |s| && IsSign(s[p]);
    var q := if signed then p + 1 else p;
    forall e | p <= e <= |s|
      ensures IsToken(s[p..e]) <==> q <= e && IsUnsignedToken(s[q..e])
    {
      UnsignedTokenAt(s, p, e);
      if p < e {
        assert s[p..e][0] == s[p];
        assert s[p..e][1..] == s[p + 1..e];
      }
    }
    forall e | q <= e <= |s| {
      UnsignedTokenAt(s, q, e);
    }
  }

  /** `FirstMatch` from 0 finds the leftmost-longest token, or there is no
      token anywhere. */
  lemma FirstMatchIsLeftmostLongest(t: string)
    ensures FirstMatch(t, 0).Some? ==> IsLeftmostLongest(t, FirstMatch(t, 0).value.0, FirstMatch(t, 0).value.1)
    ensures FirstMatch(t, 0).None? ==> NoToken(t)
  {
    forall q, e | 0 <= q <= e <= |t| && IsToken(t[q..e])
      ensures MatchAt(t, q).Some? && e <= MatchAt(t, q).value
    {
      MatchAtIsLongestToken(t, q);
    }
    if FirstMatch(t, 0).Some? {
      MatchAtIsLongestToken(t, FirstMatch(t, 0).value.0);
    }
  }

  /** `get_float` against the pattern read as a language: it fails exactly
      when the comma-free text holds no token, and otherwise yields the value
      of its leftmost-longest token. */
  lemma GetFloatIsLeftmostLongestToken(s: string)
    ensures GetFloat(s).None? <==> NoToken(Text.Remove(s, ','))
    ensures GetFloat(s).Some? ==>
      var t := Text.Remove(s, ',');
      exists p, e :: IsLeftmostLongest(t, p, e) && GetFloat(s).value == TokenValue(t[p..e])
  {
    var t := Text.Remove(s, ',');
    FirstMatchIsLeftmostLongest(t);
    if FirstMatch(t, 0).Some? {
      var (p, e) := FirstMatch(t, 0).value;
      assert GetFloat(s) == Some(TokenValue(t[p..e]));
      assert IsLeftmostLongest(t, p, e);
      assert IsToken(t[p..e]);
    } else {
      assert GetFloat(s).None?;
    }
  }

  /** Deleting a character that is not a digit neither adds nor removes digits. */
  lemma RemoveKeepsDigits(s: string, c: char)
    requires !IsDigit(c)
    ensures HasDigit(Text.Remove(s, c)) <==> HasDigit(s)
  {
    var r := Text.Remove(s, c);
    if HasDigit(s) {
      var i :| 0 <= i < |s| && IsDigit(s[i]);
      assert s[i] in multiset(s);
      assert s[i] in multiset(r);
    }
    if HasDigit(r) {
      var j :| 0 <= j < |r| && IsDigit(r[j]);
      assert r[j] in multiset(r);
      assert r[j] in multiset(s);
    }
  }

  /** A digit always starts a match. */
  lemma DigitStartsMatch(s: string, i: nat)
    requires i < |s| && IsDigit(s[i])
    ensures MatchAt(s, i).Some?
  {
    assert DigitEnd(s, i) > i;
  }

  /** Every match holds a digit. */
  lemma MatchHoldsDigit(s: string, p: nat)
    requires p <= |s| && MatchAt(s, p).Some?
    ensures exists i :: p <= i < MatchAt(s, p).value && IsDigit(s[i])
  {
    var q := if p < |s| && IsSign(s[p]) then p + 1 else p;
    var d := DigitEnd(s, q);
    if d + 1 < |s| && s[d] == '.' && IsDigit(s[d + 1]) {
      assert IsDigit(s[d + 1]);
    } else {
      assert IsDigit(s[q]);
    }
  }

  /** `get_float` fails exactly when its argument holds no digit: commas are
      not digits, a digit always starts a match and every match holds one. */
  lemma GetFloatFailsIffNoDigit(s: string)
    ensures GetFloat(s).None? <==> !HasDigit(s)
  {
    var t := Text.Remove(s, ',');
    RemoveKeepsDigits(s, ',');
    match FirstMatch(t, 0)
    case None =>
      forall i | 0 <= i < |t| && IsDigit(t[i])
        ensures MatchAt(t, i).Some?
      {
        DigitStartsMatch(t, i);
      }
    case Some((p, e)) =>
      MatchHoldsDigit(t, p);
  }

  /** Inserting a comma anywhere never changes what `get_float` yields. */
  lemma GetFloatIgnoresComma(s: string, i: nat)
    requires i <= |s|
    ensures GetFloat(s[..i] + "," + s[i..]) == GetFloat(s)
  {
    var a, b := s[..i], s[i..];
    Text.RemoveConcat(a + ",", b, ',');
    Text.RemoveConcat(a, ",", ',');
    Text.RemoveConcat(a, b, ',');
    assert ","[0] == ',' && ","[1..] == [];
    assert Text.Remove(",", ',') == [];
    assert a + b == s;
    assert Text.Remove(a + "," + b, ',') == Text.Remove(s, ',');
  }

  /** Stripping the commas first, as the source does, changes nothing. */
  lemma GetFloatOfStripped(s: string)
    ensures GetFloat(Text.Remove(s, ',')) == GetFloat(s)
  {
    Text.RemoveIdempotent(s, ',');
  }

  /** A sign starts a match exactly when a digit, or a `.` and a digit,
      follows it. */
  lemma SignNeedsDigitAfter(s: string, p: nat)
    requires p < |s| && IsSign(s[p])
    ensures MatchAt(s, p).Some? <==>
      || (p + 1 < |s| && IsDigit(s[p + 1]))
      || (p + 2 < |s| && s[p + 1] == '.' && IsDigit(s[p + 2]))
  {
  }

  /** Thousands separators are ignored: "1,234.50" reads as 1234.5. */
  lemma GetFloatThousands()
    ensures GetFloat("1,234.50") == GetFloat("1234.50") == Some(1234.5)
  {
    var s := "1234.50";
    assert s[..1] + "," + s[1..] == "1,234.50";
    GetFloatIgnoresComma(s, 1);
    GetFloatPlainThousands();
  }

  lemma GetFloatPlainThousands()
    ensures GetFloat("1234.50") == Some(1234.5)
  {
    var s := "1234.50";
    Text.RemoveAbsent(s, ',');
    MatchThousands();
    assert FirstMatch(s, 0) == Some((0, 7));
    assert s[0..7] == s;
    TokenValueThousands();
  }

  lemma MatchThousands()
    ensures MatchAt("1234.50", 0) == Some(7)
  {
    var s := "1234.50";
    assert DigitEnd(s, 4) == 4;
    assert DigitEnd(s, 2) == 4;
    assert DigitEnd(s, 0) == 4;
    assert DigitEnd(s, 7) == 7;
    assert DigitEnd(s, 5) == 7;
  }

  lemma TokenValueThousands()
    ensures TokenValue("1234.50") == 1234.5
  {
    var s := "1234.50";
    assert s[..6] == "1234.5" && "1234.5"[..5] == "1234." && "1234."[..4] == "1234";
    assert "1234"[..3] == "123" && "123"[..2] == "12" && "12"[..1] == "1" && "1"[..0] == "";
    assert Mantissa("1234") == 1234;
    assert Mantissa(s) == 123450;
    assert s[1..] == "234.50" && "234.50"[1..] == "34.50" && "34.50"[1..] == "4.50" && "4.50"[1..] == ".50";
    assert FracDigits(s) == 2;
  }

  /** A `.` with no digit after it is not part of the token: "12." reads as 12. */
  lemma GetFloatTrailingDot()
    ensures GetFloat("12.") == Some(12.0)
  {
    var s := "12.";
    Text.RemoveAbsent(s, ',');
    assert DigitEnd(s, 2) == 2;
    assert DigitEnd(s, 0) == 2;
    assert MatchAt(s, 0) == Some(2);
    assert s[0..2] == "12";
    assert "12"[..1] == "1" && "1"[..0] == "";
    assert "12"[1..] == "2" && "2"[1..] == "";
    assert TokenValue("12") == 12.0;
  }

  /** The integer digits may be absent: ".5" reads as 0.5. */
  lemma GetFloatBareFraction()
    ensures GetFloat(".5") == Some(0.5)
  {
    var s := ".5";
    Text.RemoveAbsent(s, ',');
    assert DigitEnd(s, 0) == 0 && DigitEnd(s, 2) == 2 && DigitEnd(s, 1) == 2;
    assert MatchAt(s, 0) == Some(2);
    assert s[0..2] == s && s[..1] == "." && "."[..0] == "";
    assert TokenValue(s) == 0.5;
  }

  /** A sign followed by a digit is kept: "-5" reads as -5. */
  lemma GetFloatNegative()
    ensures GetFloat("-5") == Some(-5.0)
  {
    var s := "-5";
    Text.RemoveAbsent(s, ',');
    assert DigitEnd(s, 2) == 2 && DigitEnd(s, 1) == 2;
    assert MatchAt(s, 0) == Some(2);
    assert s[0..2] == s && s[1..] == "5" && "5"[..0] == "" && "5"[1..] == "";
    assert TokenValue(s) == -5.0;
  }

  // ---------------------------------------------------------------------------
  // Skipping positions where nothing matches

  /** No match starts at p when s[p] is neither a digit nor a sign and, if it
      is a `.`, the character after it is not a digit. */
  lemma NoMatchAtPlainChar(s: string, p: nat)
    requires p < |s| && !IsDigit(s[p]) && !IsSign(s[p])
    requires s[p] == '.' ==> p + 1 < |s| && !IsDigit(s[p + 1])
    ensures MatchAt(s, p).None?
  {
    assert DigitEnd(s, p) == p;
  }

  /** The scan skips positions where no match starts: both scans find the
      same leftmost match, or both find none. */
  lemma FirstMatchSkips(s: string, from: nat, until: nat)
    requires from <= until <= |s|
    requires forall q :: from <= q < until ==> MatchAt(s, q).None?
    ensures FirstMatch(s, from) == FirstMatch(s, until)
  {
    var r, t := FirstMatch(s, from), FirstMatch(s, until);
    if r.Some? {
      var p := r.value.0;
      assert until <= p;
      assert t.Some?;
      assert t.value.0 == p;
    } else {
      assert t.None?;
    }
  }

  /** A digit run that ends where a non-digit (or the text) begins. */
  lemma DigitEndOfRun(s: string, i: nat, j: nat)
    requires i <= j <= |s|
    requires forall k :: i <= k < j ==> IsDigit(s[k])
    requires j == |s| || !IsDigit(s[j])
    ensures DigitEnd(s, i) == j
  {
  }
}
