/** Description handling of the task store: Python's `str.strip()` with no
    argument, and the description validation built on it. Strings are
    sequences of Unicode scalar values (no lone surrogates), for which `|s|`
    is Python's `len(s)`. */
module Text {
  import opened Wrappers

  /** The code points for which Python's `str.isspace()` holds; `str.strip()`
      with no argument removes exactly these from both ends. */
  const Whitespace: set<char> := {
    '\t', '\n', '\U{000B}', '\U{000C}', '\r',
    '\U{001C}', '\U{001D}', '\U{001E}', '\U{001F}', ' ',
    '\U{0085}', '\U{00A0}', '\U{1680}',
    '\U{2000}', '\U{2001}', '\U{2002}', '\U{2003}', '\U{2004}', '\U{2005}',
    '\U{2006}', '\U{2007}', '\U{2008}', '\U{2009}', '\U{200A}',
    '\U{2028}', '\U{2029}', '\U{202F}', '\U{205F}', '\U{3000}'
  }

  /** Longest description the store accepts, in code points. */
  const MaxDescriptionLength: nat := 255

  predicate IsSpace(c: char) {
    c in Whitespace
  }

  /** Every character of `s` is whitespace (vacuously true of ""). */
  predicate AllSpace(s: string) {
    forall k :: 0 <= k < |s| ==> IsSpace(s[k])
  }

  /** `s` neither starts nor ends with whitespace. */
  predicate IsStripped(s: string) {
    |s| == 0 || (!IsSpace(s[0]) && !IsSpace(s[|s| - 1]))
  }

  /** Everything of `s` before index `i` and from index `j` on is whitespace. */
  ghost predicate SpaceOutside(s: string, i: nat, j: nat)
    requires i <= j <= |s|
  {
    && (forall k :: 0 <= k < i ==> IsSpace(s[k]))
    && (forall k :: j <= k < |s| ==> IsSpace(s[k]))
  }

  /** `r` is what remains of `s` once some whitespace is cut from each end. */
  ghost predicate TrimmedFrom(r: string, s: string) {
    exists i: nat, j: nat :: i <= j <= |s| && r == s[i..j] && SpaceOutside(s, i, j)
  }

  /** Number of whitespace characters at the start of `s`. */
  function LeadingSpace(s: string): (n: nat)
    ensures n <= |s|
    ensures forall k :: 0 <= k < n ==> IsSpace(s[k])
    ensures n < |s| ==> !IsSpace(s[n])
  {
    if |s| == 0 || !IsSpace(s[0]) then 0 else 1 + LeadingSpace(s[1..])
  }

  /** Number of whitespace characters at the end of `s`. */
  function TrailingSpace(s: string): (n: nat)
    ensures n <= |s|
    ensures forall k :: |s| - n <= k < |s| ==> IsSpace(s[k])
    ensures n < |s| ==> !IsSpace(s[|s| - n - 1])
  {
    if |s| == 0 || !IsSpace(s[|s| - 1]) then 0 else 1 + TrailingSpace(s[..|s| - 1])
  }

  /** Python's `s.strip()`. */
  function Strip(s: string): (r: string)
    ensures |r| <= |s|
    ensures IsStripped(r)
    ensures |r| == 0 <==> AllSpace(s)
  {
    var t := s[LeadingSpace(s)..];
    t[..|t| - TrailingSpace(t)]
  }

  /** `Strip(s)` is `s` with only whitespace cut from its two ends. */
  lemma StripTrims(s: string)
    ensures TrimmedFrom(Strip(s), s)
  {
    var i := LeadingSpace(s);
    var t := s[i..];
    var j := |t| - TrailingSpace(t);
    assert t[..j] == s[i..i + j];
    assert SpaceOutside(s, i, i + j);
  }

  /** The stripped text is the only whitespace-free trimming of `s`: any `r`
      obtained by cutting whitespace from both ends of `s` and left with no
      whitespace at either end is `Strip(s)`. */
  lemma {:induction false} StripIsUnique(s: string, r: string)
    requires TrimmedFrom(r, s) && IsStripped(r)
    ensures r == Strip(s)
  {
    var i: nat, j: nat :| i <= j <= |s| && r == s[i..j] && SpaceOutside(s, i, j);
    if |r| != 0 {
      var n := LeadingSpace(s);
      assert !IsSpace(s[i]) by { assert s[i] == r[0]; }
      assert i == n;
      var t := s[n..];
      var m := TrailingSpace(t);
      assert !IsSpace(t[j - n - 1]) by { assert t[j - n - 1] == r[|r| - 1]; }
      assert j - n == |t| - m;
    }
  }

  /** Stripping is idempotent. */
  lemma StripIdempotent(s: string)
    ensures Strip(Strip(s)) == Strip(s)
  {
    var r := Strip(s);
    assert r[0..|r|] == r;
    StripIsUnique(r, r);
  }

  /** A description as the store keeps it: non-empty, at most
      `MaxDescriptionLength` code points, no whitespace at either end. */
  predicate ValidDescription(d: string) {
    0 < |d| <= MaxDescriptionLength && IsStripped(d)
  }

  /** Why a description was refused. */
  datatype DescriptionError = EmptyDescription | DescriptionTooLong

  /** `validate_description`: strip, then refuse an empty or over-long result. */
  function ValidateDescription(d: string): (r: Result<string, DescriptionError>)
    ensures r == Failure(EmptyDescription) <==> AllSpace(d)
    ensures r == Failure(DescriptionTooLong) <==> |Strip(d)| > MaxDescriptionLength
    ensures r.Success? ==> ValidDescription(r.value)
    ensures r.Success? ==> r.value == Strip(d)
  {
    var t := Strip(d);
    if |t| == 0 then Failure(EmptyDescription)
    else if |t| > MaxDescriptionLength then Failure(DescriptionTooLong)
    else Success(t)
  }

  /** A stored description passes validation unchanged. */
  lemma ValidateFixesValid(d: string)
    requires ValidDescription(d)
    ensures ValidateDescription(d) == Success(d)
  {
    assert d[0..|d|] == d;
    StripIsUnique(d, d);
  }

  /** Validating an accepted description again gives the same text. */
  lemma ValidateIdempotent(d: string)
    requires ValidateDescription(d).Success?
    ensures ValidateDescription(ValidateDescription(d).value) == ValidateDescription(d)
  {
    ValidateFixesValid(ValidateDescription(d).value);
  }
}
