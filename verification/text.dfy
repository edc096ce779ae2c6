/**
 `str.strip()` with no argument, applied to the OCR text before it is
 reported: leading and trailing whitespace is removed, where whitespace is
 what Python's `str.isspace` accepts for a single character.
 */
module Text {

  /** The code points CPython's `str.isspace` accepts, one by one. */
  const PythonWhitespace: set<int> := {
    0x09, 0x0A, 0x0B, 0x0C, 0x0D, 0x1C, 0x1D, 0x1E, 0x1F, 0x20, 0x85, 0xA0,
    0x1680, 0x2000, 0x2001, 0x2002, 0x2003, 0x2004, 0x2005, 0x2006, 0x2007,
    0x2008, 0x2009, 0x200A, 0x2028, 0x2029, 0x202F, 0x205F, 0x3000 }

  /**
   Python's whitespace characters: those of Unicode bidirectional class WS,
   B or S, or of general category Zs, written as ranges; they are exactly
   the code points of the table above.
   */
  predicate IsSpace(c: char)
    ensures IsSpace(c) <==> c as int in PythonWhitespace
  {
    var n := c as int;
    || (0x09 <= n <= 0x0D)
    || (0x1C <= n <= 0x20)
    || n == 0x85 || n == 0xA0 || n == 0x1680
    || (0x2000 <= n <= 0x200A)
    || n == 0x2028 || n == 0x2029 || n == 0x202F || n == 0x205F || n == 0x3000
  }

  /**
   `s[i:j]` is what stripping keeps: everything before `i` and from `j` on is
   whitespace, and a non-empty kept part starts and ends with a
   non-whitespace character.
   */
  predicate IsStripSpan(s: string, i: nat, j: nat)
    requires i <= j <= |s|
  {
    && (forall k :: 0 <= k < i ==> IsSpace(s[k]))
    && (forall k :: j <= k < |s| ==> IsSpace(s[k]))
    && (i < j ==> !IsSpace(s[i]) && !IsSpace(s[j - 1]))
  }

  /** The first position at or after `i` that holds no whitespace, or `|s|`. */
  function SkipLeading(s: string, i: nat): (r: nat)
    requires i <= |s|
    ensures i <= r <= |s|
    ensures forall k :: i <= k < r ==> IsSpace(s[k])
    ensures r < |s| ==> !IsSpace(s[r])
    decreases |s| - i
  {
    if i < |s| && IsSpace(s[i]) then SkipLeading(s, i + 1) else i
  }

  /** The end of `s[lo:j]` once trailing whitespace is dropped. */
  function SkipTrailing(s: string, lo: nat, j: nat): (r: nat)
    requires lo <= j <= |s|
    ensures lo <= r <= j
    ensures forall k :: r <= k < j ==> IsSpace(s[k])
    ensures lo < r ==> !IsSpace(s[r - 1])
    decreases j
  {
    if lo < j && IsSpace(s[j - 1]) then SkipTrailing(s, lo, j - 1) else j
  }

  /**
   `s.strip()`: a contiguous piece of `s` with only whitespace cut away on
   either side, and with no whitespace left at either end.
   */
  function Strip(s: string): (r: string)
    ensures exists i, j :: 0 <= i <= j <= |s| && IsStripSpan(s, i, j) && r == s[i..j]
    ensures |r| > 0 ==> !IsSpace(r[0]) && !IsSpace(r[|r| - 1])
  {
    var i := SkipLeading(s, 0);
    var j := SkipTrailing(s, i, |s|);
    assert IsStripSpan(s, i, j);
    s[i..j]
  }

  /** Whatever strip span is chosen, the text it keeps is the same. */
  lemma StripSpanUnique(s: string, i1: nat, j1: nat, i2: nat, j2: nat)
    requires i1 <= j1 <= |s| && IsStripSpan(s, i1, j1)
    requires i2 <= j2 <= |s| && IsStripSpan(s, i2, j2)
    ensures s[i1..j1] == s[i2..j2]
  {
    if i1 < j1 {
      assert !IsSpace(s[i1]) && !IsSpace(s[j1 - 1]);
      assert i2 < j2;
      assert i1 == i2 && j1 == j2;
    }
  }

  /** Every strip span of `s` keeps exactly `Strip(s)`. */
  lemma StripSpanGivesStrip(s: string, i: nat, j: nat)
    requires i <= j <= |s| && IsStripSpan(s, i, j)
    ensures s[i..j] == Strip(s)
  {
    var i', j' :| 0 <= i' <= j' <= |s| && IsStripSpan(s, i', j') && Strip(s) == s[i'..j'];
    StripSpanUnique(s, i, j, i', j');
  }

  /** Stripping twice gives the same text as stripping once. */
  lemma StripIdempotent(s: string)
    ensures Strip(Strip(s)) == Strip(s)
  {
    var r := Strip(s);
    assert IsStripSpan(r, 0, |r|);
    StripSpanGivesStrip(r, 0, |r|);
    assert r[0..|r|] == r;
  }

  /**
   The loops of CPython's `str.strip`: advance `i` over leading whitespace,
   then move `j` back over trailing whitespace, never below `i`; the result
   is `s[i:j]`, which is `Strip(s)`.
   */
  method StripLoops(s: string) returns (r: string, i: nat, j: nat)
    ensures i <= j <= |s| && IsStripSpan(s, i, j)
    ensures r == s[i..j]
    ensures r == Strip(s)
  {
    i := 0;
    while i < |s| && IsSpace(s[i])
      invariant i <= |s|
      invariant forall k :: 0 <= k < i ==> IsSpace(s[k])
    {
      i := i + 1;
    }
    j := |s|;
    while j > i && IsSpace(s[j - 1])
      invariant i <= j <= |s|
      invariant forall k :: j <= k < |s| ==> IsSpace(s[k])
    {
      j := j - 1;
    }
    r := s[i..j];
    StripSpanGivesStrip(s, i, j);
  }
}
