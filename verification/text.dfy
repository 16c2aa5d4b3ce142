/**
 Character and string operations the pipeline relies on: Python's
 `str.strip()`, `str.lower()` and the substring test `pat in s`, and the
 first/last-occurrence searches that `re.search` performs for the two
 recovery patterns.
 */
module Text {
  import opened Wrappers

  /** The characters for which Python's `str.isspace()` holds, which is the
      set `str.strip()` removes when called without arguments. */
  predicate IsSpace(c: char) {
    || c == ' '
    || '\t' <= c <= '\r'                // \t \n \v \f \r
    || '\U{1C}' <= c <= '\U{1F}'        // file/group/record/unit separators
    || c == '\U{85}' || c == '\U{A0}' || c == '\U{1680}'
    || '\U{2000}' <= c <= '\U{200A}'
    || c == '\U{2028}' || c == '\U{2029}' || c == '\U{202F}'
    || c == '\U{205F}' || c == '\U{3000}'
  }

  /** Number of whitespace characters at the front of `s`. */
  function LeadingSpaces(s: string): (n: nat)
    ensures n <= |s|
    ensures forall i :: 0 <= i < n ==> IsSpace(s[i])
    ensures n < |s| ==> !IsSpace(s[n])
  {
    if |s| == 0 || !IsSpace(s[0]) then 0 else 1 + LeadingSpaces(s[1..])
  }

  /** Index at which the run of whitespace closing `s` begins. */
  function TrailingStart(s: string): (n: nat)
    ensures n <= |s|
    ensures forall i :: n <= i < |s| ==> IsSpace(s[i])
    ensures 0 < n ==> !IsSpace(s[n - 1])
  {
    if |s| == 0 || !IsSpace(s[|s| - 1]) then |s| else TrailingStart(s[..|s| - 1])
  }

  /** `r` is what stripping `s` leaves when `r` starts at index `i` of `s`:
      a slice of `s`, everything cut off on either side is whitespace, and
      `r` neither starts nor ends with whitespace. */
  ghost predicate StripsTo(s: string, r: string, i: int) {
    && 0 <= i && i + |r| <= |s|
    && s[i..i + |r|] == r
    && (forall k :: 0 <= k < i ==> IsSpace(s[k]))
    && (forall k :: i + |r| <= k < |s| ==> IsSpace(s[k]))
    && (|r| > 0 ==> !IsSpace(r[0]) && !IsSpace(r[|r| - 1]))
  }

  /** Python's `s.strip()`. */
  function Strip(s: string): (r: string)
    ensures |r| <= |s|
    ensures StripsTo(s, r, LeadingSpaces(s))
  {
    var lo := LeadingSpaces(s);
    var hi := TrailingStart(s);
    if hi <= lo then
      assert StripsTo(s, [], lo);
      []
    else
      assert StripsTo(s, s[lo..hi], lo);
      s[lo..hi]
  }

  /** The result of `Strip` is the piece of `s` after its leading whitespace. */
  lemma StripIsPiece(s: string)
    ensures LeadingSpaces(s) + |Strip(s)| <= |s|
    ensures Strip(s) == s[LeadingSpaces(s)..LeadingSpaces(s) + |Strip(s)|]
  {
  }

  /** The description `StripsTo` pins down one result only. */
  lemma StripsToUnique(s: string, r1: string, i1: int, r2: string, i2: int)
    requires StripsTo(s, r1, i1) && StripsTo(s, r2, i2)
    ensures r1 == r2
  {
    if |r1| > 0 && |r2| > 0 {
      assert s[i1] == r1[0] && s[i2] == r2[0];
      assert i1 == i2;
      assert s[i1 + |r1| - 1] == r1[|r1| - 1];
      assert s[i2 + |r2| - 1] == r2[|r2| - 1];
      assert |r1| == |r2|;
    }
  }

  /** Any `r` matching the description is the result of `Strip`. */
  lemma StripCharacterized(s: string, r: string, i: int)
    requires StripsTo(s, r, i)
    ensures Strip(s) == r
  {
    StripsToUnique(s, r, i, Strip(s), LeadingSpaces(s));
  }

  /** Stripping twice is stripping once. */
  lemma StripIdempotent(s: string)
    ensures Strip(Strip(s)) == Strip(s)
  {
    var r := Strip(s);
    assert StripsTo(r, r, 0);
    StripCharacterized(r, r, 0);
  }

  /** A string that starts and ends with non-whitespace is left unchanged. */
  lemma StripKeepsTrimmed(s: string)
    requires |s| > 0 ==> !IsSpace(s[0]) && !IsSpace(s[|s| - 1])
    ensures Strip(s) == s
  {
    assert StripsTo(s, s, 0);
    StripCharacterized(s, s, 0);
  }

  /** Whitespace around a trimmed string is exactly what stripping removes. */
  lemma StripRemovesPadding(before: string, t: string, after: string)
    requires forall k :: 0 <= k < |before| ==> IsSpace(before[k])
    requires forall k :: 0 <= k < |after| ==> IsSpace(after[k])
    requires |t| > 0 ==> !IsSpace(t[0]) && !IsSpace(t[|t| - 1])
    ensures Strip(before + t + after) == t
  {
    var s := before + t + after;
    assert s[|before|..|before| + |t|] == t;
    forall k | 0 <= k < |before| ensures IsSpace(s[k]) {
      assert s[k] == before[k];
    }
    forall k | |before| + |t| <= k < |s| ensures IsSpace(s[k]) {
      assert s[k] == after[k - |before| - |t|];
    }
    assert StripsTo(s, t, |before|);
    StripCharacterized(s, t, |before|);
  }

  /** ASCII case folding, the part of `str.lower()` this model keeps. */
  function LowerChar(c: char): char {
    if 'A' <= c <= 'Z' then (c as int + 32) as char else c
  }

  /** `s.lower()` restricted to ASCII letters: each capital becomes its
      small letter, every other character stays as it is. */
  function Lower(s: string): (r: string)
    ensures |r| == |s|
    ensures forall i :: 0 <= i < |r| ==> !('A' <= r[i] <= 'Z')
    ensures forall i :: 0 <= i < |s| && 'A' <= s[i] <= 'Z' ==> r[i] as int == s[i] as int + 32
    ensures forall i :: 0 <= i < |s| && !('A' <= s[i] <= 'Z') ==> r[i] == s[i]
  {
    seq(|s|, i requires 0 <= i < |s| => LowerChar(s[i]))
  }

  /** Lower-casing twice is lower-casing once. */
  lemma LowerIdempotent(s: string)
    ensures Lower(Lower(s)) == Lower(s)
  {
  }

  /** `pat` occurs in `s` starting at index `i`. */
  predicate OccursAt(s: string, pat: string, i: int) {
    0 <= i && i + |pat| <= |s| && s[i..i + |pat|] == pat
  }

  /** First index at or after `from` where `pat` occurs in `s`. */
  function IndexOf(s: string, pat: string, from: nat): (r: Option<nat>)
    decreases |s| - from
    ensures r.Some? ==> from <= r.value && OccursAt(s, pat, r.value)
    ensures r.Some? ==> forall j :: from <= j < r.value ==> !OccursAt(s, pat, j)
    ensures r.None? ==> forall j :: from <= j ==> !OccursAt(s, pat, j)
  {
    if from + |pat| > |s| then None
    else if s[from..from + |pat|] == pat then Some(from)
    else IndexOf(s, pat, from + 1)
  }

  /** Python's substring test `pat in s`. */
  predicate Contains(s: string, pat: string)
    ensures Contains(s, pat) <==> exists i :: OccursAt(s, pat, i)
  {
    IndexOf(s, pat, 0).Some?
  }

  /** Index of the first `c` in `s`. */
  function FirstIndexOf(s: string, c: char): (r: Option<nat>)
    ensures r.Some? ==> r.value < |s| && s[r.value] == c
    ensures r.Some? ==> forall j :: 0 <= j < r.value ==> s[j] != c
    ensures r.None? ==> forall j :: 0 <= j < |s| ==> s[j] != c
  {
    if |s| == 0 then None
    else if s[0] == c then Some(0)
    else match FirstIndexOf(s[1..], c)
      case None => None
      case Some(k) => Some(k + 1)
  }

  /** Index of the last `c` in `s`. */
  function LastIndexOf(s: string, c: char): (r: Option<nat>)
    ensures r.Some? ==> r.value < |s| && s[r.value] == c
    ensures r.Some? ==> forall j :: r.value < j < |s| ==> s[j] != c
    ensures r.None? ==> forall j :: 0 <= j < |s| ==> s[j] != c
  {
    if |s| == 0 then None
    else if s[|s| - 1] == c then Some(|s| - 1)
    else LastIndexOf(s[..|s| - 1], c)
  }
}
