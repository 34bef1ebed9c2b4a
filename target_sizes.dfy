/** Target sizes from two CSV reports: `calculate_mean_sizes` (compress.py).
    Rows are paired by position, as Python's `zip` pairs them, so the result
    stops at the shorter report. */
module TargetSizes {

  /** One row of a CSV report, reduced to its `compressed_size` column in KB,
      already parsed. */
  datatype Row = Row(compressedSize: real)

  function Min(a: int, b: int): int
  {
    if a <= b then a else b
  }

  /** Averages the `compressed_size` of each positional pair of rows. */
  method CalculateMeanSizes(csv1: seq<Row>, csv2: seq<Row>) returns (meanSizes: seq<real>)
    ensures |meanSizes| == Min(|csv1|, |csv2|)
    ensures forall i :: 0 <= i < |meanSizes| ==>
              meanSizes[i] == (csv1[i].compressedSize + csv2[i].compressedSize) / 2.0
    ensures forall i :: 0 <= i < |meanSizes| ==>
              meanSizes[i] - csv1[i].compressedSize == csv2[i].compressedSize - meanSizes[i]
  {
    meanSizes := [];
    var i := 0;
    while i < |csv1| && i < |csv2|
      invariant 0 <= i <= Min(|csv1|, |csv2|)
      invariant |meanSizes| == i
      invariant forall k :: 0 <= k < i ==>
                  meanSizes[k] == (csv1[k].compressedSize + csv2[k].compressedSize) / 2.0
    {
      var size1 := csv1[i].compressedSize;
      var size2 := csv2[i].compressedSize;
      var meanSize := (size1 + size2) / 2.0;
      meanSizes := meanSizes + [meanSize];
      i := i + 1;
    }
  }

  /** Two single-row reports, and a three-row report paired with a one-row one. */
  method MeanSizesExamples()
  {
    var one := CalculateMeanSizes([Row(10.0)], [Row(20.0)]);
    assert one == [15.0];
    var truncated := CalculateMeanSizes([Row(1.0), Row(2.0), Row(3.0)], [Row(5.0)]);
    assert truncated == [3.0];
  }
}
