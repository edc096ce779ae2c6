/**
 Ranking of contours: `sorted(cnts, key=cv2.contourArea, reverse=True)[:10]`.

 Python's sort is stable, also with `reverse=True`: elements with equal keys
 keep their input order. The sorted order is therefore the strict total order
 on input positions "larger key first, and for equal keys the earlier
 position first", and the ranking works on positions (indices) so that two
 equal contours at different positions stay distinguishable.
 */
module Ranking {

  /** How many ranked contours are kept: the `[:10]` slice. */
  const MaxCandidates: nat := 10

  /** The length of `s[:10]` for a list `s` of length `n`. */
  function KeptCount(n: nat): nat
  {
    if n < MaxCandidates then n else MaxCandidates
  }

  /** Position `i` comes before position `j` in the stable descending order of `key`. */
  predicate Precedes<T>(xs: seq<T>, key: T -> real, i: nat, j: nat)
    requires i < |xs| && j < |xs|
  {
    key(xs[i]) > key(xs[j]) || (key(xs[i]) == key(xs[j]) && i < j)
  }

  /** Every entry of `s` is a position of `xs`. */
  predicate IndicesOf<T>(xs: seq<T>, s: seq<nat>)
  {
    forall k :: 0 <= k < |s| ==> s[k] < |xs|
  }

  /** Along `s`, each position precedes every later one. */
  predicate StrictlyRanked<T>(xs: seq<T>, key: T -> real, s: seq<nat>)
    requires IndicesOf(xs, s)
  {
    forall a, b :: 0 <= a < b < |s| ==> Precedes(xs, key, s[a], s[b])
  }

  /** Along `s`, keys never increase, and equal keys appear in input order. */
  predicate StableDescending<T>(xs: seq<T>, key: T -> real, s: seq<nat>)
    requires IndicesOf(xs, s)
  {
    && (forall a, b :: 0 <= a < b < |s| ==> key(xs[s[a]]) >= key(xs[s[b]]))
    && (forall a, b :: 0 <= a < b < |s| && key(xs[s[a]]) == key(xs[s[b]]) ==> s[a] < s[b])
  }

  /** `s` lists each position of `xs` exactly once. */
  predicate PermutesPositions<T>(xs: seq<T>, s: seq<nat>)
  {
    && |s| == |xs|
    && (forall k :: 0 <= k < |s| ==> s[k] < |xs|)
    && (forall i: nat :: i < |xs| ==> i in s)
    && (forall a, b :: 0 <= a < b < |s| ==> s[a] != s[b])
  }

  lemma PrecedesTotal<T>(xs: seq<T>, key: T -> real, i: nat, j: nat)
    requires i < |xs| && j < |xs| && i != j
    ensures Precedes(xs, key, i, j) != Precedes(xs, key, j, i)
  {
  }

  lemma StrictlyRankedIsStableDescending<T>(xs: seq<T>, key: T -> real, s: seq<nat>)
    requires IndicesOf(xs, s)
    ensures StrictlyRanked(xs, key, s) <==> StableDescending(xs, key, s)
  {
  }

  /** Inserts position `i` into a strictly ranked `s`, after every position that precedes it. */
  function Insert<T>(xs: seq<T>, key: T -> real, i: nat, s: seq<nat>): (r: seq<nat>)
    requires i < |xs| && IndicesOf(xs, s) && StrictlyRanked(xs, key, s) && i !in s
    ensures IndicesOf(xs, r) && StrictlyRanked(xs, key, r)
    ensures |r| == |s| + 1
    ensures forall x :: x in r <==> x in s || x == i
    decreases |s|
  {
    if |s| == 0 then [i]
    else if Precedes(xs, key, i, s[0]) then
      assert forall k :: 0 < k < |s| ==> Precedes(xs, key, s[0], s[k]);
      [i] + s
    else
      var rest := Insert(xs, key, i, s[1..]);
      assert s[0] != i;
      assert forall k :: 0 <= k < |rest| ==> rest[k] in s[1..] || rest[k] == i;
      [s[0]] + rest
  }

  /** The positions `0 .. n-1` of `xs` in stable descending order of `key`. */
  function SortPrefix<T>(xs: seq<T>, key: T -> real, n: nat): (r: seq<nat>)
    requires n <= |xs|
    ensures IndicesOf(xs, r) && StrictlyRanked(xs, key, r)
    ensures |r| == n
    ensures forall x :: x in r <==> 0 <= x < n
  {
    if n == 0 then [] else Insert(xs, key, n - 1, SortPrefix(xs, key, n - 1))
  }

  /** `sorted(range(len(xs)), key=lambda i: key(xs[i]), reverse=True)`. */
  function SortedPositions<T>(xs: seq<T>, key: T -> real): (r: seq<nat>)
    ensures IndicesOf(xs, r)
    ensures PermutesPositions(xs, r)
    ensures StableDescending(xs, key, r)
  {
    var r := SortPrefix(xs, key, |xs|);
    StrictlyRankedIsStableDescending(xs, key, r);
    r
  }

  /**
   A stable descending sort has exactly one possible result: every listing of
   the positions whose keys never increase and whose ties keep input order is
   the one `SortedPositions` computes.
   */
  lemma {:induction false} StableSortIsUnique<T>(xs: seq<T>, key: T -> real, s: seq<nat>)
    requires IndicesOf(xs, s) && PermutesPositions(xs, s) && StableDescending(xs, key, s)
    ensures s == SortedPositions(xs, key)
  {
    var t := SortedPositions(xs, key);
    StrictlyRankedIsStableDescending(xs, key, s);
    StrictlyRankedIsStableDescending(xs, key, t);
    RankedListsAgree(xs, key, s, t);
  }

  /** Two strictly ranked lists with the same members are equal. */
  lemma {:induction false} RankedListsAgree<T>(xs: seq<T>, key: T -> real, s: seq<nat>, t: seq<nat>)
    requires IndicesOf(xs, s) && StrictlyRanked(xs, key, s)
    requires IndicesOf(xs, t) && StrictlyRanked(xs, key, t)
    requires forall x :: x in s <==> x in t
    ensures s == t
    decreases |s| + |t|
  {
    assert |s| > 0 ==> s[0] in t;
    assert |t| > 0 ==> t[0] in s;
    if |s| > 0 && |t| > 0 {
      assert s[0] == t[0];
      forall x
        ensures x in s[1..] <==> x in t[1..]
      {
        if x in s[1..] {
          var k :| 0 <= k < |s[1..]| && s[1..][k] == x;
          assert Precedes(xs, key, s[0], x);
          assert x in t;
        }
        if x in t[1..] {
          var k :| 0 <= k < |t[1..]| && t[1..][k] == x;
          assert Precedes(xs, key, t[0], x);
          assert x in s;
        }
      }
      RankedListsAgree(xs, key, s[1..], t[1..]);
      assert s == [s[0]] + s[1..] && t == [t[0]] + t[1..];
    }
  }

  /**
   The positions kept by `[:10]`: at most ten, drawn from `xs` without
   repetition, keys never increasing, ties in input order, and every position
   left out is preceded by every position kept, so none has a larger key than
   the smallest one kept.
   */
  function TopPositions<T>(xs: seq<T>, key: T -> real): (r: seq<nat>)
    ensures IndicesOf(xs, r)
    ensures |r| == KeptCount(|xs|)
    ensures forall a, b :: 0 <= a < b < |r| ==> r[a] != r[b]
    ensures StableDescending(xs, key, r)
    ensures forall j, k :: 0 <= j < |xs| && j !in r && 0 <= k < |r| ==> Precedes(xs, key, r[k], j)
  {
    var s := SortedPositions(xs, key);
    var m := KeptCount(|s|);
    var r := s[..m];
    forall j, k | 0 <= j < |xs| && j !in r && 0 <= k < |r|
      ensures Precedes(xs, key, r[k], j)
    {
      assert j in s;
      var p :| 0 <= p < |s| && s[p] == j;
      assert p >= m;
      assert s[k] == r[k];
      StrictlyRankedIsStableDescending(xs, key, s);
    }
    r
  }

  /**
   Whatever the ranking puts before a kept position was itself kept, at an
   earlier place in the kept list.
   */
  lemma PrecededByKept<T>(xs: seq<T>, key: T -> real, j: nat, k: nat) returns (m: nat)
    requires j < |xs| && k < |TopPositions(xs, key)|
    requires Precedes(xs, key, j, TopPositions(xs, key)[k])
    ensures m < k && TopPositions(xs, key)[m] == j
  {
    var top := TopPositions(xs, key);
    PrecedesTotal(xs, key, j, top[k]);
    assert j in top;
    m :| 0 <= m < |top| && top[m] == j;
    StrictlyRankedIsStableDescending(xs, key, top);
  }

  /**
   The ranked contours: `sorted(xs, key=key, reverse=True)[:10]`. At most ten,
   each one taken from `xs`, with keys that never increase along the list;
   entry `k` is the input contour at the `k`-th kept position, so no input
   contour appears more often than it occurs in `xs`.
   */
  function Rank<T>(xs: seq<T>, key: T -> real): (r: seq<T>)
    ensures |r| == KeptCount(|xs|)
    ensures |r| <= MaxCandidates
    ensures forall k :: 0 <= k < |r| ==> r[k] in xs
    ensures |r| == |TopPositions(xs, key)|
    ensures forall k :: 0 <= k < |r| ==> r[k] == xs[TopPositions(xs, key)[k]]
    ensures forall a, b :: 0 <= a < b < |r| ==> key(r[a]) >= key(r[b])
  {
    var top := TopPositions(xs, key);
    seq(|top|, k requires 0 <= k < |top| => xs[top[k]])
  }

  /** The ranked list is the input read at the kept positions, in their order. */
  lemma RankReadsTopPositions<T>(xs: seq<T>, key: T -> real)
    ensures |Rank(xs, key)| == |TopPositions(xs, key)|
    ensures forall k :: 0 <= k < |Rank(xs, key)| ==>
      Rank(xs, key)[k] == xs[TopPositions(xs, key)[k]]
  {
  }

  /** No contour of the input that was not kept has a larger key than the last one kept. */
  lemma DroppedNeverLarger<T>(xs: seq<T>, key: T -> real, j: nat)
    requires j < |xs|
    requires j !in TopPositions(xs, key)
    ensures |Rank(xs, key)| == MaxCandidates
    ensures key(xs[j]) <= key(Rank(xs, key)[MaxCandidates - 1])
  {
    var top := TopPositions(xs, key);
    assert j in SortedPositions(xs, key);
    assert |top| == MaxCandidates;
    assert Precedes(xs, key, top[MaxCandidates - 1], j);
  }
}
