/** The string operations the scraper applies to text read from a listing page:
    `str.replace(c, "")` for one character, the space/newline clean-up chain,
    `str.find`, slicing with Python's index rules, and the substring test
    `needle in hay`. */
module Text {

  /** `s.replace(c, "")`: s with every occurrence of c deleted. */
  function Remove(s: string, c: char): (r: string)
    ensures c !in r
    ensures |r| <= |s|
    ensures forall x :: x in r <==> x in s && x != c
    ensures forall x :: x != c ==> multiset(r)[x] == multiset(s)[x]
  {
    if s == [] then []
    else
      assert s == [s[0]] + s[1..];
      if s[0] == c then Remove(s[1..], c) else [s[0]] + Remove(s[1..], c)
  }

  /** Removal works character by character: it distributes over concatenation. */
  lemma {:induction false} RemoveConcat(a: string, b: string, c: char)
    ensures Remove(a + b, c) == Remove(a, c) + Remove(b, c)
  {
    if a == [] {
      assert a + b == b;
    } else {
      assert (a + b)[0] == a[0];
      assert (a + b)[1..] == a[1..] + b;
      RemoveConcat(a[1..], b, c);
    }
  }

  /** Removing a character that does not occur changes nothing. */
  lemma {:induction false} RemoveAbsent(s: string, c: char)
    requires c !in s
    ensures Remove(s, c) == s
  {
    if s != [] {
      assert s[0] != c;
      RemoveAbsent(s[1..], c);
    }
  }

  /** Removing a character twice is removing it once. */
  lemma RemoveIdempotent(s: string, c: char)
    ensures Remove(Remove(s, c), c) == Remove(s, c)
  {
    RemoveAbsent(Remove(s, c), c);
  }

  predicate IsBlank(c: char) {
    c == ' ' || c == '\n'
  }

  /** The clean-up `.replace(" ", "").replace("\n", "")` applied to every text
      field before it is stored or parsed: no space or newline survives, and
      every other character keeps its number of occurrences. */
  function Clean(s: string): (r: string)
    ensures ' ' !in r && '\n' !in r
    ensures forall x :: !IsBlank(x) ==> multiset(r)[x] == multiset(s)[x]
  {
    Remove(Remove(s, ' '), '\n')
  }

  /** The clean-up is a character filter: it distributes over concatenation
      (so the kept characters stay in their original order) and keeps a single
      character exactly when it is not a space or newline. */
  lemma CleanIsFilter(a: string, b: string, c: char)
    ensures Clean(a + b) == Clean(a) + Clean(b)
    ensures Clean([c]) == if IsBlank(c) then [] else [c]
  {
    RemoveConcat(a, b, ' ');
    RemoveConcat(Remove(a, ' '), Remove(b, ' '), '\n');
    assert [c][1..] == [];
  }

  /** Cleaning an already cleaned text changes nothing. */
  lemma CleanIdempotent(s: string)
    ensures Clean(Clean(s)) == Clean(s)
  {
    var r := Clean(s);
    RemoveAbsent(r, ' ');
    RemoveAbsent(r, '\n');
  }

  /** `s.find(c)`: the index of the first occurrence of c, or -1 when c does not occur. */
  function Find(s: string, c: char): (r: int)
    ensures -1 <= r < |s|
    ensures r == -1 <==> c !in s
    ensures r >= 0 ==> s[r] == c && c !in s[..r]
  {
    if s == [] then -1
    else if s[0] == c then 0
    else
      var k := Find(s[1..], c);
      assert s == [s[0]] + s[1..];
      if k < 0 then -1
      else
        assert s[..k + 1] == [s[0]] + s[1..][..k];
        k + 1
  }

  /** Python's treatment of one slice bound for a string of length n: a
      negative bound counts from the end, and the result is clamped to [0, n]. */
  function SliceBound(i: int, n: nat): (b: nat)
    ensures b <= n
  {
    if i < 0 then (if i + n < 0 then 0 else i + n)
    else if i > n then n
    else i
  }

  /** `s[a:b]` with Python's slice semantics; an empty string when the
      normalised bounds are out of order. */
  function PySlice(s: string, a: int, b: int): (r: string)
    ensures |r| <= |s|
  {
    var lo := SliceBound(a, |s|);
    var hi := SliceBound(b, |s|);
    if lo < hi then s[lo..hi] else []
  }

  /** The condition code printed by `notify`:
      `s[s.find("(") + 1 : s.find(")")]`. */
  function ConditionCode(s: string): (r: string)
    ensures |r| <= |s|
  {
    PySlice(s, Find(s, '(') + 1, Find(s, ')'))
  }

  /** What the condition slice yields in each arrangement of the parentheses.
      When the first `(` comes before the first `)` it is the text between them;
      when `(` is missing the slice starts at 0; when `)` comes first the slice
      is empty; when `)` is missing, `find` returns -1, which as an end bound
      stands for |s| - 1 and so drops the last character. */
  lemma ConditionCodeCases(s: string)
    ensures var i, j := Find(s, '('), Find(s, ')');
      && (0 <= i < j ==> ConditionCode(s) == s[i + 1..j])
      && (i < 0 <= j ==> ConditionCode(s) == s[..j])
      && (0 <= j <= i ==> ConditionCode(s) == [])
      && (j < 0 && i + 1 < |s| - 1 ==> ConditionCode(s) == s[i + 1..|s| - 1])
      && (j < 0 && i + 1 >= |s| - 1 ==> ConditionCode(s) == [])
  {
    var i, j := Find(s, '('), Find(s, ')');
    var hi := if j >= 0 then j else if |s| > 0 then |s| - 1 else 0;
    SliceBoundOfIndex(i + 1, |s|);
    SliceBoundOfIndex(j, |s|);
    assert ConditionCode(s) == PySlice(s, i + 1, j);
    assert PySlice(s, i + 1, j) == if i + 1 < hi then s[i + 1..hi] else [];
    if j >= 0 {
      assert hi == j;
      if i < 0 {
        assert i + 1 == 0;
        assert s[i + 1..j] == s[..j];
      }
    } else {
      assert |s| > 0 ==> hi == |s| - 1;
    }
  }

  /** A bound in [-1, n] is kept, except -1, which stands for n - 1. */
  lemma SliceBoundOfIndex(k: int, n: nat)
    requires -1 <= k <= n
    ensures SliceBound(k, n) == if k >= 0 then k else if n > 0 then n - 1 else 0
  {
  }

  /** Whatever the text, the condition code is a contiguous piece of it that
      holds no `)`. */
  lemma ConditionCodeIsCleanPiece(s: string)
    ensures ')' !in ConditionCode(s)
    ensures exists k :: OccursAt(s, ConditionCode(s), k)
  {
    var i, j, r := Find(s, '('), Find(s, ')'), ConditionCode(s);
    var lo, hi := SliceBound(i + 1, |s|), SliceBound(j, |s|);
    if lo < hi {
      assert r == s[lo..hi];
      assert OccursAt(s, r, lo);
      if j >= 0 {
        assert r == s[..j][lo..];
      } else {
        assert forall x :: x in r ==> x in s;
      }
    } else {
      assert r == [];
      assert OccursAt(s, r, 0);
    }
  }

  /** needle occurs in hay starting at index i. */
  ghost predicate OccursAt(hay: string, needle: string, i: int) {
    0 <= i <= |hay| - |needle| && hay[i..i + |needle|] == needle
  }

  /** The substring test `needle in hay`. */
  function Contains(hay: string, needle: string): (r: bool)
    ensures r ==> |needle| <= |hay|
    decreases |hay|
  {
    if needle <= hay then true
    else if hay == [] then false
    else Contains(hay[1..], needle)
  }

  /** `Contains` holds exactly when needle occurs in hay at some offset. */
  lemma {:induction false} ContainsIffOccurs(hay: string, needle: string)
    ensures Contains(hay, needle) <==> exists i :: OccursAt(hay, needle, i)
    decreases |hay|
  {
    if needle <= hay {
      assert OccursAt(hay, needle, 0);
    } else if hay == [] {
    } else {
      ContainsIffOccurs(hay[1..], needle);
      if Contains(hay[1..], needle) {
        var i :| OccursAt(hay[1..], needle, i);
        assert hay[i + 1..i + 1 + |needle|] == hay[1..][i..i + |needle|];
        assert OccursAt(hay, needle, i + 1);
      } else {
        forall i | 0 < i <= |hay| - |needle|
          ensures !OccursAt(hay, needle, i)
        {
          assert hay[i..i + |needle|] == hay[1..][i - 1..i - 1 + |needle|];
          assert !OccursAt(hay[1..], needle, i - 1);
        }
      }
    }
  }
}
