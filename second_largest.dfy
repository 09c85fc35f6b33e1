/**
 * The class exercise that reads integers up to `0` and tracks the count, the
 * largest value and the second largest value, where "second largest" is the
 * greatest value strictly below the largest.  `None` stands for the program's
 * `-INFINITY`, which every entered value exceeds.
 */
module SecondLargest {
  import opened Wrappers
  import opened Sentinel

  /** The greatest value of `s`. */
  function Max(s: seq<int>): (m: int)
    requires s != []
    ensures m in s && forall x :: x in s ==> x <= m
  {
    if |s| == 1 then s[0]
    else
      var m := Max(s[..|s| - 1]);
      assert forall x :: x in s[..|s| - 1] ==> x in s;
      assert forall x :: x in s ==> x in s[..|s| - 1] || x == s[|s| - 1];
      if s[|s| - 1] > m then s[|s| - 1] else m
  }

  /** The values of `s` below `m`, in order. */
  function Below(s: seq<int>, m: int): (b: seq<int>)
    ensures forall x :: x in b <==> x in s && x < m
  {
    if s == [] then []
    else
      var b := Below(s[..|s| - 1], m);
      assert forall x :: x in s <==> x in s[..|s| - 1] || x == s[|s| - 1];
      if s[|s| - 1] < m then b + [s[|s| - 1]] else b
  }

  /** The greatest value of `s` strictly below its maximum, if there is one. */
  function SecondOf(s: seq<int>): (r: Option<int>)
    ensures r.Some? ==> s != [] && r.value in s && r.value < Max(s)
    ensures r.Some? ==> forall x :: x in s && x < Max(s) ==> x <= r.value
    ensures r.None? ==> forall x :: x in s ==> x == Max(s)
  {
    if s == [] then None
    else
      var b := Below(s, Max(s));
      if b == [] then None else Some(Max(b))
  }

  lemma MaxIs(s: seq<int>, m: int)
    requires m in s && forall x :: x in s ==> x <= m
    ensures Max(s) == m
  {
  }

  lemma SecondIs(s: seq<int>, r: Option<int>)
    requires s != []
    requires r.Some? ==> r.value in s && r.value < Max(s) && forall x :: x in s && x < Max(s) ==> x <= r.value
    requires r.None? ==> forall x :: x in s ==> x == Max(s)
    ensures SecondOf(s) == r
  {
    var b := Below(s, Max(s));
    if r.Some? {
      assert r.value in b;
      MaxIs(b, r.value);
    } else if b != [] {
      assert b[0] in b;
    }
  }

  /** Appending one value changes the largest and second largest exactly as the program's branches do. */
  lemma Append(t: seq<int>, x: int)
    ensures t == [] || x > Max(t) ==>
              Max(t + [x]) == x && SecondOf(t + [x]) == (if t == [] then None else Some(Max(t)))
    ensures t != [] && x <= Max(t) ==>
              Max(t + [x]) == Max(t)
              && SecondOf(t + [x]) == (if x < Max(t) && (SecondOf(t).None? || x > SecondOf(t).value)
                                       then Some(x) else SecondOf(t))
  {
    var s := t + [x];
    assert forall y :: y in s <==> y in t || y == x;
    if t == [] || x > Max(t) {
      MaxIs(s, x);
      if t == [] {
        SecondIs(s, None);
      } else {
        SecondIs(s, Some(Max(t)));
      }
    } else {
      MaxIs(s, Max(t));
      if x < Max(t) && (SecondOf(t).None? || x > SecondOf(t).value) {
        SecondIs(s, Some(x));
      } else {
        SecondIs(s, SecondOf(t));
      }
    }
  }

  /** The program's two branches, taken on the tracked pair of `seen`, give the tracked pair of `seen + [num]`. */
  lemma Track(seen: seq<int>, num: int, largest: Option<int>, second: Option<int>, largest': Option<int>, second': Option<int>)
    requires largest == (if seen == [] then None else Some(Max(seen))) && second == SecondOf(seen)
    requires largest.None? || num > largest.value ==> largest' == Some(num) && second' == largest
    requires largest.Some? && num <= largest.value ==>
               largest' == largest
               && second' == if (second.None? || num > second.value) && num < largest.value then Some(num) else second
    ensures largest' == Some(Max(seen + [num])) && second' == SecondOf(seen + [num])
  {
    Append(seen, num);
  }

  /** Entering the current maximum again changes neither the largest nor the second largest. */
  lemma RepeatedMaximumKeepsSecond(t: seq<int>)
    requires t != []
    ensures Max(t + [Max(t)]) == Max(t) && SecondOf(t + [Max(t)]) == SecondOf(t)
  {
    Append(t, Max(t));
  }

  /** There is no second largest exactly when all values are equal (in particular, when fewer than two were entered). */
  lemma {:induction false} NoSecondIffAllEqual(s: seq<int>)
    ensures SecondOf(s).None? <==> forall i, j :: 0 <= i < |s| && 0 <= j < |s| ==> s[i] == s[j]
  {
    if s != [] {
      if SecondOf(s).Some? {
        var v := SecondOf(s).value;
        var i :| 0 <= i < |s| && s[i] == v;
        var j :| 0 <= j < |s| && s[j] == Max(s);
        assert s[i] != s[j];
      } else {
        forall i, j | 0 <= i < |s| && 0 <= j < |s|
          ensures s[i] == s[j]
        {
          assert s[i] in s && s[j] in s;
        }
      }
    }
  }

  /**
   * The program's reading loop: `count` values before the first `0` are read,
   * and `largest` and `second` are their maximum and the greatest value below it.
   */
  method Scan(input: seq<int>) returns (count: nat, largest: Option<int>, second: Option<int>)
    requires 0 in input
    ensures count == |UpTo(input, 0)|
    ensures largest == if count == 0 then None else Some(Max(UpTo(input, 0)))
    ensures second == SecondOf(UpTo(input, 0))
  {
    ghost var s := UpTo(input, 0);
    ghost var seen: seq<int> := [];
    count, largest, second := 0, None, None;
    var i := 0;
    while true
      invariant 0 <= i <= |s| && count == i && seen == s[..i]
      invariant largest == if seen == [] then None else Some(Max(seen))
      invariant second == SecondOf(seen)
      decreases |s| - i
    {
      var num := input[i];
      SentinelAt(input, 0, i);
      i := i + 1;
      if num == 0 {
        break;
      }
      ghost var largest0, second0 := largest, second;
      count := count + 1;
      if largest.None? || num > largest.value {
        second := largest;
        largest := Some(num);
      } else if (second.None? || num > second.value) && num < largest.value {
        second := Some(num);
      }
      Track(seen, num, largest0, second0, largest, second);
      seen := seen + [num];
      assert seen == s[..i];
    }
    assert s[..count] == s;
  }

  /**
   * The whole program but its average: the reading loop, then the report, which is
   * the second largest the program prints, or `None` where it prints that the
   * second largest does not exist.
   */
  method SecondLargestReport(input: seq<int>) returns (count: nat, largest: Option<int>, second: Option<int>, report: Option<int>)
    requires 0 in input
    ensures count == |UpTo(input, 0)| && 0 !in UpTo(input, 0)
    ensures largest == if count == 0 then None else Some(Max(UpTo(input, 0)))
    ensures second == SecondOf(UpTo(input, 0))
    ensures second.Some? ==> largest.Some? && second.value < largest.value
    ensures report == second
    ensures report.None? <==> count < 2 || forall i, j :: 0 <= i < count && 0 <= j < count ==> input[i] == input[j]
  {
    count, largest, second := Scan(input);
    if count < 2 || second.None? {
      report := None;
    } else {
      report := Some(second.value);
    }
    ghost var s := UpTo(input, 0);
    NoSecondIffAllEqual(s);
    assert forall i :: 0 <= i < count ==> input[i] == s[i];
  }
}
