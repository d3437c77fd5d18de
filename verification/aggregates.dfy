/** SQL's aggregate functions over a nullable REAL column: `AVG`, `MIN` and
    `MAX` ignore NULLs and are NULL when no value remains. */
module Aggregates {
  import opened Wrappers

  /** The non-NULL values of a column, in order. */
  function NonNull(column: seq<Option<real>>): (xs: seq<real>)
    ensures |xs| <= |column|
    ensures |xs| == 0 <==> forall i :: 0 <= i < |column| ==> column[i].None?
    ensures forall i :: 0 <= i < |column| && column[i].Some? ==> column[i].value in xs
    ensures forall i :: 0 <= i < |xs| ==> Some(xs[i]) in column
  {
    if |column| == 0 then []
    else
      var rest := NonNull(column[1..]);
      assert forall i :: 0 <= i < |rest| ==> Some(rest[i]) in column by {
        forall i | 0 <= i < |rest| ensures Some(rest[i]) in column {
          var k :| 0 <= k < |column[1..]| && column[1..][k] == Some(rest[i]);
          assert column[k + 1] == Some(rest[i]);
        }
      }
      assert forall i :: 1 <= i < |column| ==> column[i] == column[1..][i - 1];
      match column[0]
      case Some(v) => [v] + rest
      case None => rest
  }

  function Sum(xs: seq<real>): real {
    if |xs| == 0 then 0.0 else xs[0] + Sum(xs[1..])
  }

  /** `AVG`: the arithmetic mean, NULL over no values. */
  function Avg(xs: seq<real>): (r: Option<real>)
    ensures r.Some? <==> |xs| > 0
  {
    if |xs| == 0 then None else Some(Sum(xs) / (|xs| as real))
  }

  /** `MIN`: a value of `xs` no greater than any other. */
  function Min(xs: seq<real>): (r: Option<real>)
    ensures r.Some? <==> |xs| > 0
    ensures r.Some? ==> r.value in xs && forall i :: 0 <= i < |xs| ==> r.value <= xs[i]
  {
    if |xs| == 0 then None
    else
      match Min(xs[1..])
      case None => Some(xs[0])
      case Some(m) =>
        assert forall i :: 1 <= i < |xs| ==> xs[i] == xs[1..][i - 1];
        Some(if xs[0] <= m then xs[0] else m)
  }

  /** `MAX`: a value of `xs` no smaller than any other. */
  function Max(xs: seq<real>): (r: Option<real>)
    ensures r.Some? <==> |xs| > 0
    ensures r.Some? ==> r.value in xs && forall i :: 0 <= i < |xs| ==> xs[i] <= r.value
  {
    if |xs| == 0 then None
    else
      match Max(xs[1..])
      case None => Some(xs[0])
      case Some(m) =>
        assert forall i :: 1 <= i < |xs| ==> xs[i] == xs[1..][i - 1];
        Some(if xs[0] >= m then xs[0] else m)
  }

  lemma {:induction false} SumBounds(xs: seq<real>, lo: real, hi: real)
    requires forall i :: 0 <= i < |xs| ==> lo <= xs[i] <= hi
    ensures (|xs| as real) * lo <= Sum(xs) <= (|xs| as real) * hi
  {
    if |xs| > 0 {
      assert forall i :: 0 <= i < |xs[1..]| ==> xs[1..][i] == xs[i + 1];
      SumBounds(xs[1..], lo, hi);
    }
  }

  /** The mean lies between the minimum and the maximum. */
  lemma MinLeAvgLeMax(xs: seq<real>)
    requires |xs| > 0
    ensures Min(xs).value <= Avg(xs).value <= Max(xs).value
  {
    var lo, hi := Min(xs).value, Max(xs).value;
    assert forall i :: 0 <= i < |xs| ==> lo <= xs[i] <= hi;
    MeanBounds(xs, lo, hi);
  }

  lemma MeanBounds(xs: seq<real>, lo: real, hi: real)
    requires |xs| > 0
    requires forall i :: 0 <= i < |xs| ==> lo <= xs[i] <= hi
    ensures lo <= Sum(xs) / (|xs| as real) <= hi
  {
    SumBounds(xs, lo, hi);
    QuotientBounds(Sum(xs), |xs| as real, lo, hi);
  }

  lemma QuotientBounds(s: real, n: real, lo: real, hi: real)
    requires n > 0.0 && n * lo <= s <= n * hi
    ensures lo <= s / n <= hi
  {
    var q := s / n;
    assert q * n == s;
    assert (q - lo) * n == s - n * lo;
    assert (hi - q) * n == n * hi - s;
  }
}
