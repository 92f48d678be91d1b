/** Failure-carrying values: a Python function that either returns or raises. */
module Wrappers {

  datatype Option<+T> = None | Some(value: T)

  datatype Result<+T, +E> = Ok(value: T) | Err(error: E)
}

/**
 * Python's slice and index semantics on lists and strings, which the scripts
 * use to trim file names, to cut the file list and to shift token rows.
 * Python clamps slice bounds to the sequence instead of failing, and a negative
 * index counts from the end; these functions make both rules explicit.
 */
module Slices {
  import opened Wrappers

  /** `s[:k]` for k >= 0: the first k elements, or all of s when it is shorter. */
  function Take<T>(s: seq<T>, k: nat): (r: seq<T>)
    ensures |r| == if k <= |s| then k else |s|
    ensures r <= s
  {
    if k <= |s| then s[..k] else s
  }

  /** `s[k:]` for k >= 0: everything after the first k elements, empty when s is shorter. */
  function Drop<T>(s: seq<T>, k: nat): (r: seq<T>)
    ensures |r| == if k <= |s| then |s| - k else 0
    ensures forall j :: 0 <= j < |r| ==> r[j] == s[k + j]
  {
    if k <= |s| then s[k..] else []
  }

  /** `s[:-k]` for k >= 1: all but the last k elements, empty when s is not longer than k. */
  function DropLast<T>(s: seq<T>, k: nat): (r: seq<T>)
    requires k >= 1
    ensures |r| == if k <= |s| then |s| - k else 0
    ensures r <= s
  {
    if k <= |s| then s[..|s| - k] else []
  }

  /** `s[i]` for an int index: negative indices count from the end; anything else raises IndexError. */
  function Index<T>(s: seq<T>, i: int): (r: Option<T>)
    ensures r.Some? <==> -|s| <= i < |s|
    ensures 0 <= i < |s| ==> r == Some(s[i])
    ensures -|s| <= i < 0 ==> r == Some(s[|s| + i])
  {
    if 0 <= i < |s| then Some(s[i])
    else if -|s| <= i < 0 then Some(s[|s| + i])
    else None
  }

  /** Cutting at any k and concatenating the two halves gives back the sequence. */
  lemma TakeDrop<T>(s: seq<T>, k: nat)
    ensures Take(s, k) + Drop(s, k) == s
  {
    if k > |s| {
      assert Take(s, k) == s && Drop(s, k) == [];
    }
  }

  /**
   * The pair (`s[:-1]`, `s[1:]`) used for next-token prediction: both halves
   * have one element fewer than s (none when s is empty), the first half is
   * s without its last element, the second is s shifted by one, so position j
   * of the second half is the element that follows position j of the first.
   */
  lemma ShiftAligned<T>(s: seq<T>)
    ensures |DropLast(s, 1)| == |Drop(s, 1)| == if |s| == 0 then 0 else |s| - 1
    ensures forall j :: 0 <= j < |DropLast(s, 1)| ==> DropLast(s, 1)[j] == s[j] && Drop(s, 1)[j] == s[j + 1]
    ensures forall j :: 0 <= j < |Drop(s, 1)| - 1 ==> Drop(s, 1)[j] == DropLast(s, 1)[j + 1]
    ensures |s| > 0 ==> DropLast(s, 1) + [s[|s| - 1]] == s && [s[0]] + Drop(s, 1) == s
  {
    if |s| > 0 {
      assert DropLast(s, 1) == s[..|s| - 1];
      assert Drop(s, 1) == s[1..];
    }
  }
}

/**
 * numpy's `argmax` over one score vector: the index of the largest score, and
 * of the first one when several are equal. Scores are modelled as reals;
 * only their order matters.
 */
module Scores {

  /** Left-to-right scan that replaces the best index only on a strictly larger score. */
  function Argmax(v: seq<real>): (k: nat)
    requires |v| > 0
    ensures k < |v|
    ensures forall j :: 0 <= j < |v| ==> v[j] <= v[k]
    ensures forall j :: 0 <= j < k ==> v[j] < v[k]
  {
    if |v| == 1 then 0
    else
      var k := Argmax(v[..|v| - 1]);
      if v[|v| - 1] > v[k] then |v| - 1 else k
  }

  /** The two properties of Argmax pin the index down: it is the first position of the maximum. */
  lemma ArgmaxUnique(v: seq<real>, k: nat)
    requires k < |v|
    requires forall j :: 0 <= j < |v| ==> v[j] <= v[k]
    requires forall j :: 0 <= j < k ==> v[j] < v[k]
    ensures Argmax(v) == k
  {
  }
}
