/** Intervals of audio, and the parallel start/end lists the script keeps them in. */
module Spans {

  /** A stretch of the recording, in whole seconds from its start. */
  datatype Span = Span(start: nat, end: nat) {
    function Length(): int {
      end - start
    }
  }

  /** The spans held by two parallel lists, pair by pair. */
  function Zip(starts: seq<nat>, ends: seq<nat>): (spans: seq<Span>)
    requires |starts| == |ends|
    ensures |spans| == |starts|
  {
    if starts == [] then []
    else
      var n := |starts| - 1;
      Zip(starts[..n], ends[..n]) + [Span(starts[n], ends[n])]
  }

  /** The `k`th span pairs the `k`th start with the `k`th end. */
  lemma {:induction false} ZipAt(starts: seq<nat>, ends: seq<nat>)
    requires |starts| == |ends|
    ensures forall k :: 0 <= k < |starts| ==> Zip(starts, ends)[k] == Span(starts[k], ends[k])
  {
    if starts != [] {
      var n := |starts| - 1;
      ZipAt(starts[..n], ends[..n]);
    }
  }

  lemma ZipAppend(starts: seq<nat>, ends: seq<nat>, s: nat, e: nat)
    requires |starts| == |ends|
    ensures Zip(starts + [s], ends + [e]) == Zip(starts, ends) + [Span(s, e)]
  {
    assert (starts + [s])[..|starts|] == starts && (ends + [e])[..|ends|] == ends;
  }
}
