/** The demonstration in `main`: ten calls of `rand_range(200, 300)`, each
    on the next draw of the generator, shown in order. The draws are given
    as a sequence; the console output is the sequence of shown values. */
module Demo {
  import opened RangeMapper

  /** How many sample values the demonstration shows. */
  const REPETITIONS: int := 10
  const DEMO_LOW: int := 200
  const DEMO_HIGH: int := 300

  /** RandRange applied to each draw in turn: every output is in [low, high]. */
  function RangedDraws(draws: seq<int>, low: int, high: int): (out: seq<int>)
    requires forall i :: 0 <= i < |draws| ==> IsDraw(draws[i])
    requires ValidRange(low, high)
    ensures |out| == |draws|
    ensures forall i :: 0 <= i < |out| ==> low <= out[i] <= high
    ensures forall i :: 0 <= i < |out| ==> out[i] == RandRange(draws[i], low, high)
  {
    if draws == [] then []
    else [RandRange(draws[0], low, high)] + RangedDraws(draws[1..], low, high)
  }

  /** The loop `for (int i = 1; i <= REPETITIONS; i++)` that shows
      `rand_range(low, high)` on each pass, with low = 200 and high = 300. */
  method ShowRangedDemo(draws: seq<int>) returns (shown: seq<int>)
    requires |draws| == REPETITIONS
    requires forall i :: 0 <= i < |draws| ==> IsDraw(draws[i])
    ensures shown == RangedDraws(draws, DEMO_LOW, DEMO_HIGH)
    ensures |shown| == REPETITIONS
    ensures forall i :: 0 <= i < |shown| ==> DEMO_LOW <= shown[i] <= DEMO_HIGH
  {
    var low, high := DEMO_LOW, DEMO_HIGH;
    shown := [];
    var i := 1;
    while i <= REPETITIONS
      invariant 1 <= i <= REPETITIONS + 1
      invariant |shown| == i - 1
      invariant forall k :: 0 <= k < i - 1 ==> shown[k] == RandRange(draws[k], low, high)
    {
      var random := RandRange(draws[i - 1], low, high);
      shown := shown + [random];
      i := i + 1;
    }
  }
}
