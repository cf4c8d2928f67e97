/** The Option wrapper used for the `npos`-or-index results of string searches. */
module Wrappers {
  datatype Option<+T> = None | Some(value: T)
}

/** The parts of the C++ string library the logger relies on:
    `std::string::find`, `std::string::find_last_of` for one character,
    and `std::to_string` on an unsigned integer. `npos` is `None`. */
module Strings {
  import opened Wrappers

  /** `r` is a suffix of `t`. */
  predicate IsSuffix(r: string, t: string)
  {
    |r| <= |t| && r == t[|t| - |r|..]
  }

  /** `pat` occurs in `s` starting at index `i`. */
  predicate OccursAt(s: string, pat: string, i: int)
  {
    0 <= i && i + |pat| <= |s| && s[i..i + |pat|] == pat
  }

  /** An occurrence of `pat` one place further in `s` is an occurrence in the tail. */
  lemma OccursAtTail(s: string, pat: string, j: int)
    requires |s| > 0 && 0 <= j
    ensures OccursAt(s, pat, j + 1) <==> OccursAt(s[1..], pat, j)
  {
    if j + 1 + |pat| <= |s| {
      assert s[j + 1..j + 1 + |pat|] == s[1..][j..j + |pat|];
    }
  }

  /** The occurrences in the tail of `s` are those in `s` past index 0, shifted by one. */
  lemma OccurrencesInTail(s: string, pat: string)
    requires |s| > 0
    ensures forall j :: 1 <= j ==> (OccursAt(s, pat, j) <==> OccursAt(s[1..], pat, j - 1))
  {
    forall j | 1 <= j
      ensures OccursAt(s, pat, j) <==> OccursAt(s[1..], pat, j - 1)
    {
      OccursAtTail(s, pat, j - 1);
    }
  }

  /** The occurrences in a slice of `s` are those in `s` that fit in the slice. */
  lemma OccursAtSlice(s: string, pat: string, lo: int, hi: int, j: int)
    requires 0 <= lo <= hi <= |s| && 0 <= j
    ensures OccursAt(s[lo..hi], pat, j) <==> lo + j + |pat| <= hi && OccursAt(s, pat, lo + j)
  {
    if lo + j + |pat| <= hi {
      var u, w := s[lo..hi][j..j + |pat|], s[lo + j..lo + j + |pat|];
      forall k | 0 <= k < |pat|
        ensures u[k] == w[k]
      {
        assert u[k] == s[lo + j + k];
      }
      assert u == w;
    }
  }

  /** The occurrences in a suffix `r` of `t` are those in `t` past the cut. */
  lemma OccursInSuffix(t: string, r: string, pat: string, j: int)
    requires IsSuffix(r, t) && 0 <= j
    ensures OccursAt(r, pat, j) <==> OccursAt(t, pat, |t| - |r| + j)
  {
    OccursAtSlice(t, pat, |t| - |r|, |t|, j);
    assert t[|t| - |r|..] == t[|t| - |r|..|t|];
  }

  /** An occurrence that lies within `a` is the same in `a + b`. */
  lemma OccursInPrefix(a: string, b: string, pat: string, j: int)
    requires 0 <= j && j + |pat| <= |a|
    ensures OccursAt(a + b, pat, j) <==> OccursAt(a, pat, j)
  {
    OccursAtSlice(a + b, pat, 0, |a|, j);
    assert (a + b)[0..|a|] == a;
  }

  /** Search for `pat` from index `from` on. */
  function FindFrom(s: string, pat: string, from: nat): (r: Option<nat>)
    requires from <= |s|
    ensures r.Some? ==> from <= r.value && OccursAt(s, pat, r.value)
    ensures r.Some? ==> forall j :: from <= j < r.value ==> !OccursAt(s, pat, j)
    ensures r.None? ==> forall j :: from <= j ==> !OccursAt(s, pat, j)
    decreases |s| - from
  {
    if from + |pat| > |s| then None
    else if s[from..from + |pat|] == pat then Some(from)
    else FindFrom(s, pat, from + 1)
  }

  /** `s.find(pat)`: the first index at which `pat` occurs. */
  function Find(s: string, pat: string): (r: Option<nat>)
    ensures r.Some? ==> OccursAt(s, pat, r.value)
    ensures r.Some? ==> forall j :: 0 <= j < r.value ==> !OccursAt(s, pat, j)
    ensures r.None? ==> forall j :: !OccursAt(s, pat, j)
  {
    FindFrom(s, pat, 0)
  }

  /** `pat` does not occur where `s` holds a character other than its first. */
  lemma NotOccursAtOtherHead(s: string, pat: string, j: int)
    requires 0 <= j < |s| && |pat| > 0 && s[j] != pat[0]
    ensures !OccursAt(s, pat, j)
  {
    if j + |pat| <= |s| {
      assert s[j..j + |pat|][0] == s[j];
    }
  }

  /** Find returns the first occurrence, and nothing else. */
  lemma FindIsFirst(s: string, pat: string, i: int)
    requires OccursAt(s, pat, i)
    requires forall j :: 0 <= j < i ==> !OccursAt(s, pat, j)
    ensures Find(s, pat) == Some(i)
  {
  }

  /** The prefix of `s` up to and including the first occurrence of `pat`. */
  function ThroughFirst(s: string, pat: string): Option<string>
    decreases |s|
  {
    if |s| < |pat| then None
    else if s[..|pat|] == pat then Some(pat)
    else
      match ThroughFirst(s[1..], pat)
      case None => None
      case Some(p) => Some([s[0]] + p)
  }

  /** `r` is the prefix of `s` through the first occurrence of `pat`, or
      None when `pat` does not occur in `s`. */
  ghost predicate IsThroughFirst(s: string, pat: string, r: Option<string>)
  {
    match r
    case Some(p) =>
      && |pat| <= |p| <= |s| && p == s[..|p|]
      && OccursAt(s, pat, |p| - |pat|)
      && forall j :: 0 <= j < |p| - |pat| ==> !OccursAt(s, pat, j)
    case None =>
      forall j :: !OccursAt(s, pat, j)
  }

  /** ThroughFirst ends at the first occurrence of `pat`, and is None exactly
      when there is none. */
  lemma {:induction false} ThroughFirstSpec(s: string, pat: string)
    ensures IsThroughFirst(s, pat, ThroughFirst(s, pat))
    decreases |s|
  {
    if |s| < |pat| {
    } else if s[..|pat|] == pat {
      assert OccursAt(s, pat, 0);
    } else {
      ThroughFirstSpec(s[1..], pat);
      ThroughFirstStep(s, pat, ThroughFirst(s[1..], pat));
    }
  }

  /** One step of ThroughFirst: `s` does not start with `pat`, so its first
      occurrence is the tail's, one place further on. */
  lemma ThroughFirstStep(s: string, pat: string, r: Option<string>)
    requires |s| >= |pat| && s[..|pat|] != pat
    requires IsThroughFirst(s[1..], pat, r)
    ensures IsThroughFirst(s, pat, match r case None => None case Some(p) => Some([s[0]] + p))
  {
    assert !OccursAt(s, pat, 0);
    OccurrencesInTail(s, pat);
    match r
    case None =>
    case Some(p) =>
      assert [s[0]] + p == s[..|p| + 1];
  }

  /** ThroughFirst cuts `s` right after the first occurrence of `pat`. */
  lemma ThroughFirstAt(s: string, pat: string, i: int)
    requires OccursAt(s, pat, i) && forall j :: 0 <= j < i ==> !OccursAt(s, pat, j)
    ensures ThroughFirst(s, pat) == Some(s[..i + |pat|])
  {
    ThroughFirstSpec(s, pat);
    var p := ThroughFirst(s, pat);
    assert p.Some?;
    FirstOccurrenceUnique(s, pat, i, |p.value| - |pat|);
  }

  /** There is only one first occurrence. */
  lemma FirstOccurrenceUnique(s: string, pat: string, i: int, k: int)
    requires OccursAt(s, pat, i) && forall j :: 0 <= j < i ==> !OccursAt(s, pat, j)
    requires OccursAt(s, pat, k) && forall j :: 0 <= j < k ==> !OccursAt(s, pat, j)
    ensures i == k
  {
  }

  /** `s.find_last_of(c)` for a one-character set: the last index holding `c`. */
  function FindLastOf(s: string, c: char): (r: Option<nat>)
    ensures r.Some? ==> r.value < |s| && s[r.value] == c && c !in s[r.value + 1..]
    ensures r.None? ==> c !in s
  {
    if s == [] then None
    else if s[|s| - 1] == c then Some(|s| - 1)
    else
      var r := FindLastOf(s[..|s| - 1], c);
      assert s == s[..|s| - 1] + [s[|s| - 1]];
      if r.Some? then
        assert s[r.value + 1..] == s[..|s| - 1][r.value + 1..] + [s[|s| - 1]];
        r
      else r
  }

  predicate IsDigit(c: char)
  {
    '0' <= c <= '9'
  }

  function DigitChar(d: nat): (c: char)
    requires d < 10
    ensures IsDigit(c)
  {
    ('0' as int + d) as char
  }

  function DigitValue(c: char): (d: nat)
    requires IsDigit(c)
    ensures d < 10
  {
    c as int - '0' as int
  }

  /** `std::to_string(n)`: decimal digits, most significant first, no leading zero. */
  function Decimal(n: nat): (r: string)
    ensures |r| >= 1
    ensures forall i :: 0 <= i < |r| ==> IsDigit(r[i])
    ensures r[0] == '0' ==> n == 0
    ensures n < 10 ==> |r| == 1
  {
    if n < 10 then [DigitChar(n)] else Decimal(n / 10) + [DigitChar(n % 10)]
  }

  /** Reading a string of decimal digits back as a number. */
  function ParseDecimal(s: string): nat
    requires forall i :: 0 <= i < |s| ==> IsDigit(s[i])
  {
    if s == [] then 0
    else ParseDecimal(s[..|s| - 1]) * 10 + DigitValue(s[|s| - 1])
  }

  /** The decimal text of a line number reads back as that line number. */
  lemma {:induction false} ParseDecimalInvertsDecimal(n: nat)
    ensures ParseDecimal(Decimal(n)) == n
  {
    var d := Decimal(n);
    assert d[..|d| - 1] == if n < 10 then [] else Decimal(n / 10);
    if n >= 10 {
      ParseDecimalInvertsDecimal(n / 10);
    }
  }

  /** Distinct numbers have distinct decimal texts. */
  lemma DecimalInjective(m: nat, n: nat)
    requires Decimal(m) == Decimal(n)
    ensures m == n
  {
    ParseDecimalInvertsDecimal(m);
    ParseDecimalInvertsDecimal(n);
  }
}
