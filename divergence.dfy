/** Deciding whether two QUIC traces diverge: each trace's cumulative bytes
    ACKed against RTTs is cut into segments at its changepoints, a best
    polynomial is fitted to each segment, and the two traces are compared
    segment by segment, on the degree and then on the coefficients of their
    polynomials. */
module Divergence {
  import opened Outcomes
  import Polyfit

  /** Two polynomials whose coefficient MSE reaches this margin differ. */
  const Margin: real := 5.0

  // ---------------------------------------------------------------------------
  // Mean squared error of coefficients

  /** The squared differences of the first n coefficients summed. */
  function SquaredDiffs(a: seq<real>, b: seq<real>, n: nat): real
    requires n <= |a| == |b|
  {
    if n == 0 then 0.0 else SquaredDiffs(a, b, n - 1) + Polyfit.Square(a[n - 1] - b[n - 1])
  }

  /** The mean squared difference of the coefficients of two polynomials of
      the same number of coefficients. */
  function CoeffMse(a: seq<real>, b: seq<real>): real
    requires 0 < |a| == |b|
  {
    SquaredDiffs(a, b, |a|) / |a| as real
  }

  /** The summed squares are never negative, and they are 0 exactly when the
      first n coefficients agree. */
  lemma {:induction false} SquaredDiffsZero(a: seq<real>, b: seq<real>, n: nat)
    requires n <= |a| == |b|
    ensures SquaredDiffs(a, b, n) >= 0.0
    ensures SquaredDiffs(a, b, n) == 0.0 <==> a[..n] == b[..n]
  {
    if n > 0 {
      SquaredDiffsZero(a, b, n - 1);
      var e := a[n - 1] - b[n - 1];
      Polyfit.SquareSign(e);
      assert a[..n] == a[..n - 1] + [a[n - 1]] && b[..n] == b[..n - 1] + [b[n - 1]];
      if a[..n] == b[..n] {
        assert a[..n - 1] == a[..n][..n - 1] && b[..n - 1] == b[..n][..n - 1];
        assert a[n - 1] == a[..n][n - 1];
      }
    }
  }

  /** The difference of a and b squares like the difference of b and a. */
  lemma SquareOfNegation(x: real, y: real)
    ensures Polyfit.Square(x - y) == Polyfit.Square(y - x)
  {
    assert x - y == -(y - x);
  }

  /** The summed squares do not depend on the order of the two polynomials. */
  lemma {:induction false} SquaredDiffsSymmetric(a: seq<real>, b: seq<real>, n: nat)
    requires n <= |a| == |b|
    ensures SquaredDiffs(a, b, n) == SquaredDiffs(b, a, n)
  {
    if n > 0 {
      SquaredDiffsSymmetric(a, b, n - 1);
      SquareOfNegation(a[n - 1], b[n - 1]);
    }
  }

  /** The coefficient MSE is never negative, is 0 exactly for equal
      polynomials, and does not depend on their order. */
  lemma CoeffMseProperties(a: seq<real>, b: seq<real>)
    requires 0 < |a| == |b|
    ensures CoeffMse(a, b) >= 0.0
    ensures CoeffMse(a, b) == 0.0 <==> a == b
    ensures CoeffMse(a, b) == CoeffMse(b, a)
  {
    SquaredDiffsZero(a, b, |a|);
    SquaredDiffsSymmetric(a, b, |a|);
    assert a[..|a|] == a && b[..|b|] == b;
  }

  /** `get_poly_mse` of two polynomials of equal length: the loop sums the
      squared coefficient differences, then divides by the number of
      coefficients, which raises for empty polynomials. */
  method GetCoeffMse(a: seq<real>, b: seq<real>) returns (r: Outcome<real>)
    requires |a| == |b|
    ensures r.Raised? <==> |a| == 0
    ensures r.Raised? ==> r.error == ZeroDivisionError
    ensures r.Ok? ==> r.value == CoeffMse(a, b)
  {
    var total := 0.0;
    var n := |a|;
    var i := 0;
    while i < n
      invariant 0 <= i <= n
      invariant total == SquaredDiffs(a, b, i)
    {
      total := total + Polyfit.Square(a[i] - b[i]);
      i := i + 1;
    }
    if n == 0 {
      return Raised(ZeroDivisionError);
    }
    r := Ok(total / n as real);
  }

  // ---------------------------------------------------------------------------
  // Results

  /** Why two traces were judged the same or different; the message text
      built from it is not modelled. */
  datatype Reason =
    | Same
    | SegmentCount(n1: nat, n2: nat)
    | Degree(d1: int, d2: int)
    | Coefficients(poly1: seq<real>, poly2: seq<real>, mse: real)

  /** Whether the traces differ, why, and the first segment where they do. */
  datatype DivergenceResults = DivergenceResults(isDifferent: bool, msg: Reason, divStartIdx: Option<nat>)

  /** The result for two traces found the same. */
  const SameResult: DivergenceResults := DivergenceResults(false, Same, None)

  /** Two segment polynomials agree: same number of coefficients, and their
      coefficient MSE below the margin. */
  predicate Agree(a: seq<real>, b: seq<real>)
  {
    |a| == |b| && |a| > 0 && CoeffMse(a, b) < Margin
  }

  /** Two segment polynomials diverge: their degrees differ, or their
      coefficient MSE reaches the margin. */
  predicate Diverge(a: seq<real>, b: seq<real>)
  {
    |a| != |b| || (|a| > 0 && CoeffMse(a, b) >= Margin)
  }

  // ---------------------------------------------------------------------------
  // Segment-by-segment comparison

  /** The comparison loop from segment i on: the first segment whose degrees
      differ, or whose coefficient MSE reaches the margin, decides; if none
      does, the traces are the same. */
  function CompareFrom(polys1: seq<seq<real>>, polys2: seq<seq<real>>, i: nat): (r: Outcome<DivergenceResults>)
    requires |polys1| == |polys2| && i <= |polys1|
    ensures r.Raised? ==> r.error == ZeroDivisionError
    ensures r.Ok? ==> (r.value.isDifferent <==> r.value.divStartIdx.Some?)
    ensures r.Ok? && r.value.divStartIdx.Some? ==> i <= r.value.divStartIdx.value < |polys1|
    decreases |polys1| - i
  {
    if i == |polys1| then Ok(SameResult)
    else
      var p1, p2 := polys1[i], polys2[i];
      if |p1| != |p2| then Ok(DivergenceResults(true, Degree(|p1| - 1, |p2| - 1), Some(i)))
      else if |p1| == 0 then Raised(ZeroDivisionError)
      else if CoeffMse(p1, p2) >= Margin then
        Ok(DivergenceResults(true, Coefficients(p1, p2, CoeffMse(p1, p2)), Some(i)))
      else CompareFrom(polys1, polys2, i + 1)
  }

  /** What the comparison from segment i on means: the traces are the same
      exactly when every segment from i on agrees; when they differ, the
      first index is a segment that diverges and every segment before it
      agrees; it raises only on a pair of empty polynomials. */
  lemma {:induction false} CompareFromMeans(polys1: seq<seq<real>>, polys2: seq<seq<real>>, i: nat)
    requires |polys1| == |polys2| && i <= |polys1|
    ensures var r := CompareFrom(polys1, polys2, i);
      (r == Ok(SameResult) <==> forall j :: i <= j < |polys1| ==> Agree(polys1[j], polys2[j])) &&
      (r.Ok? ==> (r.value.isDifferent <==> r.value.divStartIdx.Some?)) &&
      (r.Ok? && r.value.isDifferent ==>
        var k := r.value.divStartIdx.value;
        i <= k < |polys1| && Diverge(polys1[k], polys2[k]) &&
        forall j :: i <= j < k ==> Agree(polys1[j], polys2[j])) &&
      (r.Raised? ==>
        r.error == ZeroDivisionError &&
        exists k :: i <= k < |polys1| && polys1[k] == [] && polys2[k] == [])
    decreases |polys1| - i
  {
    if i < |polys1| {
      CompareFromMeans(polys1, polys2, i + 1);
      var r := CompareFrom(polys1, polys2, i);
      if r.Raised? && |polys1[i]| != 0 {
        assert r == CompareFrom(polys1, polys2, i + 1);
      }
    }
  }

  /** The comparison never raises when no polynomial is empty. */
  lemma CompareFromOk(polys1: seq<seq<real>>, polys2: seq<seq<real>>)
    requires |polys1| == |polys2|
    requires forall j :: 0 <= j < |polys1| ==> |polys1[j]| > 0
    ensures CompareFrom(polys1, polys2, 0).Ok?
  {
    CompareFromMeans(polys1, polys2, 0);
  }

  /** Comparing the polynomials of a trace with themselves finds them the same. */
  lemma CompareFromSelf(polys: seq<seq<real>>, i: nat)
    requires i <= |polys|
    requires forall j :: 0 <= j < |polys| ==> |polys[j]| > 0
    ensures CompareFrom(polys, polys, i) == Ok(SameResult)
  {
    CompareFromMeans(polys, polys, i);
    forall j | i <= j < |polys|
      ensures Agree(polys[j], polys[j])
    {
      CoeffMseProperties(polys[j], polys[j]);
    }
  }

  /** Swapping the two traces finds the same segment, or raises alike. */
  lemma {:induction false} CompareFromSymmetric(polys1: seq<seq<real>>, polys2: seq<seq<real>>, i: nat)
    requires |polys1| == |polys2| && i <= |polys1|
    ensures var r, r' := CompareFrom(polys1, polys2, i), CompareFrom(polys2, polys1, i);
      r.Ok? == r'.Ok? &&
      (r.Ok? ==> r.value.isDifferent == r'.value.isDifferent && r.value.divStartIdx == r'.value.divStartIdx)
    decreases |polys1| - i
  {
    if i < |polys1| {
      CompareFromSymmetric(polys1, polys2, i + 1);
      if |polys1[i]| == |polys2[i]| > 0 {
        CoeffMseProperties(polys1[i], polys2[i]);
      }
    }
  }

  /** The loop of `check_divergence` over the segment polynomials; an empty
      pair of polynomials makes `get_poly_mse` raise. */
  method ComparePolys(polys1: seq<seq<real>>, polys2: seq<seq<real>>) returns (r: Outcome<DivergenceResults>)
    requires |polys1| == |polys2|
    ensures r == CompareFrom(polys1, polys2, 0)
  {
    var ret := SameResult;
    var i := 0;
    while i < |polys1|
      invariant 0 <= i <= |polys1|
      invariant CompareFrom(polys1, polys2, 0) == CompareFrom(polys1, polys2, i)
      invariant ret == SameResult
    {
      var poly1, poly2 := polys1[i], polys2[i];
      var numCoeff1, numCoeff2 := |poly1|, |poly2|;
      if numCoeff1 != numCoeff2 {
        ret := DivergenceResults(true, Degree(numCoeff1 - 1, numCoeff2 - 1), Some(i));
        break;
      }
      var mse := GetCoeffMse(poly1, poly2);
      if mse.Raised? {
        return Raised(mse.error);
      }
      if mse.value >= Margin {
        ret := DivergenceResults(true, Coefficients(poly1, poly2, mse.value), Some(i));
        break;
      }
      i := i + 1;
    }
    r := Ok(ret);
  }

  // ---------------------------------------------------------------------------
  // Comparing two traces

  /** One trace: RTTs elapsed and cumulative bytes ACKed at each ACK, and the
      changepoints found on them, the last of which is the series' length. */
  datatype Trace = Trace(rtts: seq<real>, cumAcks: seq<real>, brkps: seq<int>)

  predicate WellFormed(t: Trace)
  {
    |t.rtts| == |t.cumAcks|
  }

  /** The changepoints without the last one, which only marks the end of the
      series. */
  function DropSentinel(brkps: seq<int>): (r: seq<int>)
    ensures |brkps| == 0 ==> r == []
    ensures |brkps| > 0 ==> |r| == |brkps| - 1 && r + [brkps[|brkps| - 1]] == brkps
  {
    if |brkps| != 0 then brkps[..|brkps| - 1] else brkps
  }

  /** The best polynomial of each segment of a trace, with the default
      degrees and penalty. */
  function TracePolys(fit: Polyfit.Fitter, t: Trace): Outcome<seq<seq<real>>>
    requires WellFormed(t) && Polyfit.ValidFitter(fit)
  {
    Polyfit.BestPolys(t.rtts, t.cumAcks, DropSentinel(t.brkps), fit, Polyfit.MaxDegPlus1, Polyfit.Penalty)
  }

  /** What `check_divergence` decides: different numbers of changepoints
      differ at no particular segment; otherwise the segment polynomials of
      the two traces are compared in order. */
  function CheckDivergenceOf(fit: Polyfit.Fitter, t1: Trace, t2: Trace): (r: Outcome<DivergenceResults>)
    requires WellFormed(t1) && WellFormed(t2) && Polyfit.ValidFitter(fit)
    ensures r.Ok? && r.value.isDifferent && r.value.divStartIdx.None? ==> |t1.brkps| != |t2.brkps|
    ensures r.Ok? && r.value.divStartIdx.Some? ==>
      TracePolys(fit, t1).Ok? && r.value.divStartIdx.value < |TracePolys(fit, t1).value|
  {
    if |t1.brkps| != |t2.brkps| then
      Ok(DivergenceResults(true, SegmentCount(|t1.brkps|, |t2.brkps|), None))
    else
      match TracePolys(fit, t1)
      case Raised(e) => Raised(e)
      case Ok(polys1) =>
        match TracePolys(fit, t2)
        case Raised(e) => Raised(e)
        case Ok(polys2) =>
          PolysAligned(fit, t1, t2);
          CompareFrom(polys1, polys2, 0)
  }

  /** With equal numbers of changepoints, both traces get one polynomial per
      segment, so the two lists are equally long, and none is empty. */
  lemma PolysAligned(fit: Polyfit.Fitter, t1: Trace, t2: Trace)
    requires WellFormed(t1) && WellFormed(t2) && Polyfit.ValidFitter(fit)
    requires |t1.brkps| == |t2.brkps|
    requires TracePolys(fit, t1).Ok? && TracePolys(fit, t2).Ok?
    ensures |TracePolys(fit, t1).value| == |TracePolys(fit, t2).value|
    ensures forall j :: 0 <= j < |TracePolys(fit, t1).value| ==> |TracePolys(fit, t1).value[j]| > 0
    ensures forall j :: 0 <= j < |TracePolys(fit, t2).value| ==> |TracePolys(fit, t2).value[j]| > 0
  {
    Polyfit.BestPolysDegrees(t1.rtts, t1.cumAcks, DropSentinel(t1.brkps), fit, Polyfit.MaxDegPlus1, Polyfit.Penalty);
    Polyfit.BestPolysDegrees(t2.rtts, t2.cumAcks, DropSentinel(t2.brkps), fit, Polyfit.MaxDegPlus1, Polyfit.Penalty);
  }

  /** `check_divergence` on two traces whose changepoints are given. */
  method CheckDivergence(fit: Polyfit.Fitter, t1: Trace, t2: Trace) returns (r: Outcome<DivergenceResults>)
    requires WellFormed(t1) && WellFormed(t2) && Polyfit.ValidFitter(fit)
    ensures r == CheckDivergenceOf(fit, t1, t2)
  {
    if |t1.brkps| != |t2.brkps| {
      return Ok(DivergenceResults(true, SegmentCount(|t1.brkps|, |t2.brkps|), None));
    }
    var brkps1 := if |t1.brkps| != 0 then t1.brkps[..|t1.brkps| - 1] else t1.brkps;
    var brkps2 := if |t2.brkps| != 0 then t2.brkps[..|t2.brkps| - 1] else t2.brkps;
    var polys1 := Polyfit.GetBestPolys(t1.rtts, t1.cumAcks, brkps1, fit, Polyfit.MaxDegPlus1, Polyfit.Penalty);
    if polys1.Raised? {
      return Raised(polys1.error);
    }
    var polys2 := Polyfit.GetBestPolys(t2.rtts, t2.cumAcks, brkps2, fit, Polyfit.MaxDegPlus1, Polyfit.Penalty);
    if polys2.Raised? {
      return Raised(polys2.error);
    }
    PolysAligned(fit, t1, t2);
    r := ComparePolys(polys1.value, polys2.value);
  }

  /** What the verdict means: it raises only when fitting a trace raises;
      with equal numbers of changepoints, the traces are the same exactly when
      every pair of segment polynomials agrees, and a difference is located at
      a segment that diverges, after segments that all agree; with different
      numbers, they differ at no segment. */
  lemma CheckDivergenceMeans(fit: Polyfit.Fitter, t1: Trace, t2: Trace)
    requires WellFormed(t1) && WellFormed(t2) && Polyfit.ValidFitter(fit)
    ensures var r := CheckDivergenceOf(fit, t1, t2);
      (r.Raised? <==> |t1.brkps| == |t2.brkps| && (TracePolys(fit, t1).Raised? || TracePolys(fit, t2).Raised?)) &&
      (r.Ok? && |t1.brkps| != |t2.brkps| ==> r.value.isDifferent && r.value.divStartIdx.None?) &&
      (r.Ok? && |t1.brkps| == |t2.brkps| ==>
        var polys1, polys2 := TracePolys(fit, t1).value, TracePolys(fit, t2).value;
        |polys1| == |polys2| &&
        (r.value == SameResult <==> forall j :: 0 <= j < |polys1| ==> Agree(polys1[j], polys2[j])) &&
        (r.value.isDifferent <==> r.value.divStartIdx.Some?) &&
        (r.value.isDifferent ==>
          var k := r.value.divStartIdx.value;
          k < |polys1| && Diverge(polys1[k], polys2[k]) &&
          forall j :: 0 <= j < k ==> Agree(polys1[j], polys2[j])))
  {
    if |t1.brkps| == |t2.brkps| && TracePolys(fit, t1).Ok? && TracePolys(fit, t2).Ok? {
      PolysAligned(fit, t1, t2);
      var polys1, polys2 := TracePolys(fit, t1).value, TracePolys(fit, t2).value;
      CompareFromMeans(polys1, polys2, 0);
      CompareFromOk(polys1, polys2);
    }
  }

  /** A trace compared with itself is found the same, unless fitting it raises. */
  lemma CheckDivergenceSelf(fit: Polyfit.Fitter, t: Trace)
    requires WellFormed(t) && Polyfit.ValidFitter(fit)
    ensures TracePolys(fit, t).Ok? ==> CheckDivergenceOf(fit, t, t) == Ok(SameResult)
    ensures TracePolys(fit, t).Raised? ==> CheckDivergenceOf(fit, t, t) == Raised(TracePolys(fit, t).error)
  {
    if TracePolys(fit, t).Ok? {
      PolysAligned(fit, t, t);
      CompareFromSelf(TracePolys(fit, t).value, 0);
    }
  }

  /** Swapping the two traces gives the same verdict at the same segment, and
      raises exactly when the original order does. */
  lemma CheckDivergenceSymmetric(fit: Polyfit.Fitter, t1: Trace, t2: Trace)
    requires WellFormed(t1) && WellFormed(t2) && Polyfit.ValidFitter(fit)
    ensures var r, r' := CheckDivergenceOf(fit, t1, t2), CheckDivergenceOf(fit, t2, t1);
      r.Ok? == r'.Ok? &&
      (r.Ok? ==> r.value.isDifferent == r'.value.isDifferent && r.value.divStartIdx == r'.value.divStartIdx)
  {
    if |t1.brkps| == |t2.brkps| && TracePolys(fit, t1).Ok? && TracePolys(fit, t2).Ok? {
      PolysAligned(fit, t1, t2);
      CompareFromSymmetric(TracePolys(fit, t1).value, TracePolys(fit, t2).value, 0);
    }
  }
}
