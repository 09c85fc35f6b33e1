/** Input read up to a sentinel value, as both exercise programs read it. */
module Sentinel {

  /** The values of `input` before the first occurrence of `stop`. */
  function UpTo(input: seq<int>, stop: int): (p: seq<int>)
    ensures p <= input && stop !in p
    ensures stop in input ==> |p| < |input| && input[|p|] == stop
  {
    if input == [] || input[0] == stop then [] else [input[0]] + UpTo(input[1..], stop)
  }

  /** Within the values read so far, the `i`-th input is the sentinel exactly at the end of the prefix. */
  lemma SentinelAt(input: seq<int>, stop: int, i: int)
    requires stop in input && 0 <= i <= |UpTo(input, stop)|
    ensures input[i] == stop <==> i == |UpTo(input, stop)|
    ensures i < |UpTo(input, stop)| ==> input[i] == UpTo(input, stop)[i]
  {
    var p := UpTo(input, stop);
    if i < |p| {
      assert p[i] in p;
    }
  }
}
