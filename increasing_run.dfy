/**
 * The homework program that reads integers up to `-1` and reports the length of
 * the longest strictly increasing run of consecutive values.
 */
module IncreasingRun {
  import opened Sentinel

  /** `s[lo..hi]` is a non-empty run of strictly increasing consecutive values. */
  ghost predicate IsRun(s: seq<int>, lo: int, hi: int) {
    0 <= lo < hi <= |s| && forall k :: lo < k < hi ==> s[k - 1] < s[k]
  }

  /** Length of the strictly increasing run that ends with the last value of `s`. */
  function RunAtEnd(s: seq<int>): (n: nat)
    requires s != []
    ensures 1 <= n <= |s|
  {
    if |s| == 1 then 1
    else if s[|s| - 2] < s[|s| - 1] then RunAtEnd(s[..|s| - 1]) + 1
    else 1
  }

  /** Length of the longest strictly increasing run in `s`. */
  function MaxRun(s: seq<int>): (n: nat)
    ensures n <= |s| && (s == [] <==> n == 0)
  {
    if s == [] then 0
    else
      var m := MaxRun(s[..|s| - 1]);
      var e := RunAtEnd(s);
      if e > m then e else m
  }

  /** `RunAtEnd(s)` is the longest increasing run that ends at the last value. */
  lemma {:induction false} RunAtEndIsLongest(s: seq<int>)
    requires s != []
    ensures IsRun(s, |s| - RunAtEnd(s), |s|)
    ensures forall lo :: IsRun(s, lo, |s|) ==> |s| - lo <= RunAtEnd(s)
  {
    var n := |s|;
    if n > 1 && s[n - 2] < s[n - 1] {
      var t := s[..n - 1];
      RunAtEndIsLongest(t);
      forall lo | IsRun(s, lo, n)
        ensures n - lo <= RunAtEnd(s)
      {
        if lo < n - 1 {
          assert IsRun(t, lo, n - 1);
        }
      }
    } else if n > 1 {
      forall lo | IsRun(s, lo, n)
        ensures n - lo <= 1
      {
        assert !(s[n - 2] < s[n - 1]);
      }
    }
  }

  /** `MaxRun(s)` is attained by some run, and no run of `s` is longer. */
  lemma {:induction false} MaxRunIsLongest(s: seq<int>)
    ensures s != [] ==> exists lo, hi :: IsRun(s, lo, hi) && hi - lo == MaxRun(s)
    ensures forall lo, hi :: IsRun(s, lo, hi) ==> hi - lo <= MaxRun(s)
  {
    if s != [] {
      var n := |s|;
      var t := s[..n - 1];
      MaxRunIsLongest(t);
      RunAtEndIsLongest(s);
      if RunAtEnd(s) > MaxRun(t) {
        assert IsRun(s, n - RunAtEnd(s), n);
      } else {
        var lo, hi :| IsRun(t, lo, hi) && hi - lo == MaxRun(t);
        assert IsRun(s, lo, hi);
      }
      forall lo, hi | IsRun(s, lo, hi)
        ensures hi - lo <= MaxRun(s)
      {
        if hi < n {
          assert IsRun(t, lo, hi);
        } else {
          assert IsRun(s, lo, n);
        }
      }
    }
  }

  /** How the run at the end and the longest run change when one value is appended. */
  lemma Extend(t: seq<int>, x: int)
    ensures t == [] ==> RunAtEnd(t + [x]) == 1 && MaxRun(t + [x]) == 1
    ensures t != [] ==> RunAtEnd(t + [x]) == (if t[|t| - 1] < x then RunAtEnd(t) + 1 else 1)
    ensures var e := RunAtEnd(t + [x]);
            MaxRun(t + [x]) == if e > MaxRun(t) then e else MaxRun(t)
  {
    assert (t + [x])[..|t|] == t;
  }

  /**
   * The program's loop: `maxLen` is the length of the longest strictly increasing
   * run among the values before the first `-1`.
   */
  method LongestIncreasingRun(input: seq<int>) returns (maxLen: int)
    requires -1 in input
    ensures maxLen == MaxRun(UpTo(input, -1))
    ensures forall lo, hi :: IsRun(UpTo(input, -1), lo, hi) ==> hi - lo <= maxLen
    ensures UpTo(input, -1) != [] ==> exists lo, hi :: IsRun(UpTo(input, -1), lo, hi) && hi - lo == maxLen
  {
    ghost var s := UpTo(input, -1);
    maxLen := 0;
    var currentLen := 1;
    var num := input[0];
    var i := 1;
    var prev := num;
    while num != -1
      invariant 1 <= i <= |s| + 1 && num == input[i - 1]
      invariant i <= |s| ==> num == s[i - 1]
      invariant i == 1 ==> prev == num && currentLen == 1 && maxLen == 0
      invariant i > 1 ==> prev == s[i - 2] && currentLen == RunAtEnd(s[..i - 1]) && maxLen == MaxRun(s[..i - 1])
      decreases |s| + 1 - i
    {
      ghost var seen := s[..i - 1];
      assert s[..i] == seen + [num];
      Extend(seen, num);
      if num > prev {
        currentLen := currentLen + 1;
        if currentLen > maxLen {
          maxLen := currentLen;
        }
      } else {
        if currentLen > maxLen {
          maxLen := currentLen;
        }
        currentLen := 1;
      }
      prev := num;
      num := input[i];
      i := i + 1;
    }
    assert s[..i - 1] == s;
    MaxRunIsLongest(s);
  }
}
