/** Sequence operations the search relies on: reversal (list.reverse and
    get_reverse_name), the substring test `w in s` and the leftmost index
    `s.find(w)`. A line of the grid is the string its cells join to, so all
    of them work on `seq<char>` or on any element type. */
module Strings {

  /** The sequence read back to front. */
  function Reverse<T>(s: seq<T>): (r: seq<T>)
    ensures |r| == |s|
  {
    seq(|s|, k requires 0 <= k < |s| => s[|s| - 1 - k])
  }

  /** Element k of the reversal is element |s|-1-k of the original. */
  lemma ReverseAt<T>(s: seq<T>)
    ensures forall k | 0 <= k < |s| :: Reverse(s)[k] == s[|s| - 1 - k]
  {
  }

  /** Reversing twice gives back the original sequence. */
  lemma ReverseReverse<T>(s: seq<T>)
    ensures Reverse(Reverse(s)) == s
  {
    var r := Reverse(s);
    assert forall k | 0 <= k < |s| :: Reverse(r)[k] == s[k];
  }

  /** `w` occurs in `s` starting at index `i`. */
  predicate OccursAt(w: seq<char>, s: seq<char>, i: nat)
  {
    i + |w| <= |s| && s[i..i + |w|] == w
  }

  /** Python's `w in s` for strings: `w` is a contiguous part of `s`
      (the empty string is part of every string). */
  predicate Contains(s: seq<char>, w: seq<char>)
    ensures Contains(s, w) ==> |w| <= |s|
    ensures |w| == 0 ==> Contains(s, w)
  {
    assert |w| == 0 ==> OccursAt(w, s, 0);
    exists i | 0 <= i <= |s| :: OccursAt(w, s, i)
  }

  /** `i` is the leftmost place where `w` occurs in `s`. */
  predicate IsLeftmost(w: seq<char>, s: seq<char>, i: nat)
  {
    OccursAt(w, s, i) && forall j | 0 <= j < i :: !OccursAt(w, s, j)
  }

  /** Python's `s.find(w)`: the leftmost index where `w` occurs, or -1. */
  function Find(s: seq<char>, w: seq<char>): (r: int)
    ensures -1 <= r <= |s|
  {
    FindFrom(s, w, 0)
  }

  /** The leftmost occurrence of `w` in `s` at or after `from`, or -1. */
  function FindFrom(s: seq<char>, w: seq<char>, from: nat): (r: int)
    requires from <= |s|
    ensures r == -1 || from <= r <= |s|
    decreases |s| - from
  {
    if from + |w| > |s| then -1
    else if s[from..from + |w|] == w then from
    else FindFrom(s, w, from + 1)
  }

  /** find answers -1 exactly when `w` is not part of `s`, and otherwise the
      leftmost place where it occurs. */
  lemma FindSpec(s: seq<char>, w: seq<char>)
    ensures Find(s, w) == -1 <==> !Contains(s, w)
    ensures Find(s, w) != -1 ==> 0 <= Find(s, w) && IsLeftmost(w, s, Find(s, w))
  {
    FindFromSpec(s, w, 0);
  }

  lemma {:induction false} FindFromSpec(s: seq<char>, w: seq<char>, from: nat)
    requires from <= |s|
    requires forall j | 0 <= j < from :: !OccursAt(w, s, j)
    ensures FindFrom(s, w, from) == -1 <==> !Contains(s, w)
    ensures FindFrom(s, w, from) != -1 ==> from <= FindFrom(s, w, from) && IsLeftmost(w, s, FindFrom(s, w, from))
    decreases |s| - from
  {
    if from + |w| > |s| {
      assert forall j | from <= j <= |s| :: !OccursAt(w, s, j);
    } else if s[from..from + |w|] == w {
      assert OccursAt(w, s, from);
    } else {
      assert !OccursAt(w, s, from);
      FindFromSpec(s, w, from + 1);
    }
  }

  /** Reversing the haystack and the needle together keeps the answer. */
  lemma ContainsReverse(s: seq<char>, w: seq<char>)
    ensures Contains(Reverse(s), Reverse(w)) == Contains(s, w)
  {
    if Contains(s, w) {
      var i :| 0 <= i <= |s| && OccursAt(w, s, i);
      OccursReverse(w, s, i);
    }
    if Contains(Reverse(s), Reverse(w)) {
      var i :| 0 <= i <= |s| && OccursAt(Reverse(w), Reverse(s), i);
      OccursReverse(Reverse(w), Reverse(s), i);
      ReverseReverse(s);
      ReverseReverse(w);
    }
  }

  /** An occurrence at `i` is, read backwards, an occurrence of the
      reversed word ending |w| cells before the far end. */
  lemma OccursReverse(w: seq<char>, s: seq<char>, i: nat)
    requires OccursAt(w, s, i)
    ensures OccursAt(Reverse(w), Reverse(s), |s| - i - |w|)
  {
    var j := |s| - i - |w|;
    var rs, rw := Reverse(s), Reverse(w);
    assert forall k | 0 <= k < |w| :: rs[j..j + |w|][k] == rw[k] by {
      forall k | 0 <= k < |w| ensures rs[j..j + |w|][k] == rw[k] {
        assert rs[j + k] == s[i + |w| - 1 - k];
        assert s[i..i + |w|][|w| - 1 - k] == s[i + |w| - 1 - k];
      }
    }
  }
}
