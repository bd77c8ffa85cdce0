/** The polynomial scoring of `analysis/polyfit.py`: evaluating a polynomial
    (coefficients highest degree first), its mean squared residual on a set of
    points, the degree penalty, and the best polynomial of each segment of a
    series cut at breakpoints. Arithmetic is over `real`; the least-squares
    fit itself is a parameter. */
module Polyfit {
  import opened Outcomes
  import opened PyOps

  // ---------------------------------------------------------------------------
  // Evaluation

  /** `x ** n` for a natural exponent. */
  function Pow(x: real, n: nat): real
  {
    if n == 0 then 1.0 else x * Pow(x, n - 1)
  }

  /** The first k terms of the polynomial `p` of degree `deg`:
      p[0] * x^deg + ... + p[k - 1] * x^(deg - k + 1). */
  function Terms(x: real, p: seq<real>, deg: int, k: nat): real
    requires |p| == deg + 1 && k <= |p|
  {
    if k == 0 then 0.0 else Terms(x, p, deg, k - 1) + Pow(x, deg - (k - 1)) * p[k - 1]
  }

  /** The value of the polynomial with coefficients `p` at `x`: all its terms. */
  function PolyValue(x: real, p: seq<real>): real
  {
    Terms(x, p, |p| - 1, |p|)
  }

  /** Horner's rule, an independent definition of the value of a polynomial. */
  function Horner(x: real, p: seq<real>): real
  {
    if p == [] then 0.0 else Horner(x, p[..|p| - 1]) * x + p[|p| - 1]
  }

  /** Appending a coefficient multiplies every earlier term by `x`. */
  lemma {:induction false} TermsShift(x: real, q: seq<real>, c: real, k: nat)
    requires k <= |q|
    ensures Terms(x, q + [c], |q|, k) == Terms(x, q, |q| - 1, k) * x
  {
    if k > 0 {
      TermsShift(x, q, c, k - 1);
      var a := Terms(x, q, |q| - 1, k - 1);
      var w := Pow(x, |q| - 1 - (k - 1));
      assert Pow(x, |q| - (k - 1)) == x * w;
      assert (a + w * q[k - 1]) * x == a * x + x * w * q[k - 1];
    }
  }

  /** The sum of terms is the value Horner's rule computes. */
  lemma {:induction false} PolyValueIsHorner(x: real, p: seq<real>)
    ensures PolyValue(x, p) == Horner(x, p)
  {
    if p != [] {
      var q, c := p[..|p| - 1], p[|p| - 1];
      assert q + [c] == p;
      PolyValueIsHorner(x, q);
      TermsShift(x, q, c, |q|);
    }
  }

  /** At 0 a polynomial takes the value of its constant term. */
  lemma PolyValueAtZero(p: seq<real>)
    requires |p| > 0
    ensures PolyValue(0.0, p) == p[|p| - 1]
  {
    PolyValueIsHorner(0.0, p);
  }

  /** `eval_poly`: the value of the polynomial `p` of degree `deg` at `x`. */
  method EvalPoly(x: real, p: seq<real>, deg: int) returns (val: real)
    requires |p| == deg + 1
    ensures val == PolyValue(x, p)
  {
    val := 0.0;
    var i := 0;
    while i < deg + 1
      invariant 0 <= i <= deg + 1
      invariant val == Terms(x, p, deg, i)
    {
      val := val + Pow(x, deg - i) * p[i];
      i := i + 1;
    }
  }

  // ---------------------------------------------------------------------------
  // Mean squared error

  function Square(a: real): real
  {
    a * a
  }

  /** A square is never negative, and 0 only for 0. */
  lemma SquareSign(a: real)
    ensures Square(a) >= 0.0
    ensures a != 0.0 ==> Square(a) > 0.0
  {
    if a > 0.0 || a < 0.0 {
      calc {
        Square(a);
      ==
        a * a;
      > { assert a * a > 0.0; }
        0.0;
      }
    }
  }

  /** The squared residuals of the first n points summed. */
  function SquaredResiduals(xs: seq<real>, ys: seq<real>, p: seq<real>, n: nat): real
    requires n <= |xs| == |ys|
  {
    if n == 0 then 0.0 else SquaredResiduals(xs, ys, p, n - 1) + Square(ys[n - 1] - PolyValue(xs[n - 1], p))
  }

  /** The mean squared residual of `p` on the points (xs[i], ys[i]). */
  function Mse(xs: seq<real>, ys: seq<real>, p: seq<real>): real
    requires 0 < |xs| == |ys|
  {
    SquaredResiduals(xs, ys, p, |xs|) / |xs| as real
  }

  /** A sum of squared residuals is 0 exactly when the polynomial passes
      through each of the points. */
  lemma {:induction false} SquaredResidualsZero(xs: seq<real>, ys: seq<real>, p: seq<real>, n: nat)
    requires n <= |xs| == |ys|
    ensures SquaredResiduals(xs, ys, p, n) >= 0.0
    ensures SquaredResiduals(xs, ys, p, n) == 0.0 <==> forall i :: 0 <= i < n ==> PolyValue(xs[i], p) == ys[i]
  {
    if n > 0 {
      SquaredResidualsZero(xs, ys, p, n - 1);
      var e := ys[n - 1] - PolyValue(xs[n - 1], p);
      SquareSign(e);
    }
  }

  /** The mean squared residual is never negative, and it is 0 exactly when
      the polynomial fits every point. */
  lemma MseZeroIffFits(xs: seq<real>, ys: seq<real>, p: seq<real>)
    requires 0 < |xs| == |ys|
    ensures Mse(xs, ys, p) >= 0.0
    ensures Mse(xs, ys, p) == 0.0 <==> forall i :: 0 <= i < |xs| ==> PolyValue(xs[i], p) == ys[i]
  {
    SquaredResidualsZero(xs, ys, p, |xs|);
  }

  /** `get_poly_mse` of polyfit.py: the mean squared residual of `p` on
      (xs, ys); with no points the division raises. */
  method GetPolyMse(xs: seq<real>, ys: seq<real>, p: seq<real>, deg: int) returns (r: Outcome<real>)
    requires |p| == deg + 1 && |xs| == |ys|
    ensures r.Raised? <==> |xs| == 0
    ensures r.Raised? ==> r.error == ZeroDivisionError
    ensures r.Ok? ==> r.value == Mse(xs, ys, p)
  {
    var err := 0.0;
    var n := |xs|;
    var i := 0;
    while i < n
      invariant 0 <= i <= n
      invariant err == SquaredResiduals(xs, ys, p, i)
    {
      var predict := EvalPoly(xs[i], p, deg);
      err := err + Square(ys[i] - predict);
      i := i + 1;
    }
    if n == 0 {
      return Raised(ZeroDivisionError);
    }
    r := Ok(err / n as real);
  }

  // ---------------------------------------------------------------------------
  // Degree penalty

  /** `np.sum(p)`. */
  function CoeffSum(p: seq<real>): real
  {
    if p == [] then 0.0 else CoeffSum(p[..|p| - 1]) + p[|p| - 1]
  }

  /** `correct_poly_error`: the error `mse` plus the penalty `l * deg * sum(p)`. */
  function CorrectPolyError(mse: real, p: seq<real>, deg: int, l: real): (r: real)
    requires |p| == deg + 1
    ensures deg == 0 ==> r == mse
    ensures 0.0 <= l && 0 <= deg && 0.0 <= CoeffSum(p) ==> mse <= r
  {
    var k := deg as real * CoeffSum(p);
    assert 0 <= deg && 0.0 <= CoeffSum(p) ==> 0.0 <= k;
    assert l * deg as real * CoeffSum(p) == l * k;
    mse + l * deg as real * CoeffSum(p)
  }

  /** Without a penalty factor the error is the mean squared error itself. */
  lemma CorrectPolyErrorNoPenalty(mse: real, p: seq<real>, deg: int)
    requires |p| == deg + 1
    ensures CorrectPolyError(mse, p, deg, 0.0) == mse
  {
  }

  /** The penalty grows with the factor: for non-negative coefficients of a
      non-constant polynomial, a larger factor never lowers the error. */
  lemma CorrectPolyErrorMonotone(mse: real, p: seq<real>, deg: int, l: real, l': real)
    requires |p| == deg + 1 && deg >= 0 && CoeffSum(p) >= 0.0 && l <= l'
    ensures CorrectPolyError(mse, p, deg, l) <= CorrectPolyError(mse, p, deg, l')
  {
    var k := deg as real * CoeffSum(p);
    assert k >= 0.0;
    assert l * deg as real * CoeffSum(p) == l * k;
    assert l' * deg as real * CoeffSum(p) == l' * k;
  }

  // ---------------------------------------------------------------------------
  // Best polynomial per segment

  /** A least-squares fitter: the coefficients (highest degree first) of the
      polynomial of the given degree fitted to (xs, ys). */
  type Fitter = (seq<real>, seq<real>, nat) -> seq<real>

  /** A fitter returns deg + 1 coefficients, as `np.polyfit` does. */
  ghost predicate ValidFitter(fit: Fitter)
  {
    forall xs: seq<real>, ys: seq<real>, deg: nat :: |fit(xs, ys, deg)| == deg + 1
  }

  /** The adjusted error of the polynomial of degree `deg` fitted to (xs, ys). */
  function Score(xs: seq<real>, ys: seq<real>, fit: Fitter, l: real, deg: nat): real
    requires 0 < |xs| == |ys| && ValidFitter(fit)
  {
    var p := fit(xs, ys, deg);
    CorrectPolyError(Mse(xs, ys, p), p, deg, l)
  }

  /** The degree chosen so far, its polynomial and its adjusted error. */
  datatype Choice = Choice(deg: nat, poly: seq<real>, err: real)

  /** The choice after trying the degrees 1 .. hi - 1 in turn: a degree
      replaces the choice only when its error is strictly smaller. */
  function BestBelow(xs: seq<real>, ys: seq<real>, fit: Fitter, l: real, hi: int): (r: Option<Choice>)
    requires 0 < |xs| == |ys| && ValidFitter(fit)
    ensures r.None? <==> hi <= 1
    ensures r.Some? ==> 1 <= r.value.deg < hi && r.value.poly == fit(xs, ys, r.value.deg)
    ensures r.Some? ==> r.value.err == Score(xs, ys, fit, l, r.value.deg)
    decreases hi
  {
    if hi <= 1 then None
    else
      var prev := BestBelow(xs, ys, fit, l, hi - 1);
      var e := Score(xs, ys, fit, l, hi - 1);
      if prev.None? || e < prev.value.err then Some(Choice(hi - 1, fit(xs, ys, hi - 1), e)) else prev
  }

  /** The chosen degree has the least adjusted error of all the degrees tried,
      and every lower degree has a strictly larger one: ties go to the lowest degree. */
  lemma {:induction false} BestBelowIsFirstMinimum(xs: seq<real>, ys: seq<real>, fit: Fitter, l: real, hi: int)
    requires 0 < |xs| == |ys| && ValidFitter(fit) && hi > 1
    ensures var c := BestBelow(xs, ys, fit, l, hi).value;
      (forall d :: 1 <= d < hi ==> c.err <= Score(xs, ys, fit, l, d)) &&
      (forall d :: 1 <= d < c.deg ==> c.err < Score(xs, ys, fit, l, d))
    decreases hi
  {
    if hi > 2 {
      BestBelowIsFirstMinimum(xs, ys, fit, l, hi - 1);
    }
  }

  /** The polynomial `get_best_polys` keeps for one segment: none is kept when
      no degree is tried, and `np.polyfit` rejects an empty segment. */
  function SegmentFit(xs: seq<real>, ys: seq<real>, fit: Fitter, maxDegPlus1: int, l: real): (r: Outcome<seq<real>>)
    requires |xs| == |ys| && ValidFitter(fit)
    ensures r.Ok? ==> 2 <= |r.value| <= maxDegPlus1
    ensures r.Ok? ==> exists deg: nat :: 1 <= deg < maxDegPlus1 && r.value == fit(xs, ys, deg)
  {
    if maxDegPlus1 <= 1 then Raised(UnboundLocalError)
    else if |xs| == 0 then Raised(TypeError)
    else Ok(BestBelow(xs, ys, fit, l, maxDegPlus1).value.poly)
  }

  /** The degree loop of `get_best_polys` on one segment. */
  method BestFit(xs: seq<real>, ys: seq<real>, fit: Fitter, maxDegPlus1: int, l: real) returns (r: Outcome<seq<real>>)
    requires |xs| == |ys| && ValidFitter(fit)
    ensures r == SegmentFit(xs, ys, fit, maxDegPlus1, l)
  {
    var minError: Option<real> := None;
    var bestPoly: seq<real> := [];
    ghost var bestDeg: nat := 0;
    var deg := 1;
    while deg < maxDegPlus1
      invariant deg == 1 || 1 < deg <= maxDegPlus1
      invariant deg > 1 ==> |xs| > 0
      invariant |xs| > 0 ==>
        BestBelow(xs, ys, fit, l, deg) == if minError.None? then None else Some(Choice(bestDeg, bestPoly, minError.value))
      invariant deg == 1 ==> minError.None?
    {
      if |xs| == 0 {
        return Raised(TypeError);
      }
      var p := fit(xs, ys, deg);
      var mse := GetPolyMse(xs, ys, p, deg);
      var err := CorrectPolyError(mse.value, p, deg, l);
      if minError.None? || err < minError.value {
        minError := Some(err);
        bestPoly := p;
        bestDeg := deg;
      }
      deg := deg + 1;
    }
    if minError.None? {
      return Raised(UnboundLocalError);
    }
    r := Ok(bestPoly);
  }

  /** The default highest degree plus one, and the default penalty factor. */
  const MaxDegPlus1: int := 4
  const Penalty: real := 0.7

  /** Where segment i starts: 0 for the first, the previous breakpoint otherwise. */
  function SegmentStart(brkps: seq<int>, i: nat): int
    requires i <= |brkps|
  {
    if i == 0 then 0 else brkps[i - 1]
  }

  /** Segment i of `s`: from its start to breakpoint i, or to the end for the last one. */
  function Segment<T>(s: seq<T>, brkps: seq<int>, i: nat): seq<T>
    requires i <= |brkps|
  {
    if i == |brkps| then SliceFrom(s, SegmentStart(brkps, i)) else Slice(s, SegmentStart(brkps, i), brkps[i])
  }

  /** Breakpoints in order, inside the series. */
  predicate SortedWithin(brkps: seq<int>, n: nat)
  {
    (forall i :: 0 <= i < |brkps| ==> 0 <= brkps[i] <= n) &&
    (forall i, j :: 0 <= i <= j < |brkps| ==> brkps[i] <= brkps[j])
  }

  /** The segments 0 .. n - 1 joined together. */
  function Joined<T>(s: seq<T>, brkps: seq<int>, n: nat): seq<T>
    requires n <= |brkps| + 1
  {
    if n == 0 then [] else Joined(s, brkps, n - 1) + Segment(s, brkps, n - 1)
  }

  /** For ordered breakpoints inside the series, each segment is the plain
      slice between its bounds. */
  lemma SegmentInRange<T>(s: seq<T>, brkps: seq<int>, i: nat)
    requires SortedWithin(brkps, |s|) && i <= |brkps|
    ensures 0 <= SegmentStart(brkps, i) <= |s|
    ensures i < |brkps| ==> SegmentStart(brkps, i) <= brkps[i]
    ensures i < |brkps| ==> Segment(s, brkps, i) == s[SegmentStart(brkps, i)..brkps[i]]
    ensures i == |brkps| ==> Segment(s, brkps, i) == s[SegmentStart(brkps, i)..]
  {
  }

  /** For ordered breakpoints inside the series, the first n segments join up
      to breakpoint n - 1. */
  lemma {:induction false} JoinedPrefix<T>(s: seq<T>, brkps: seq<int>, n: nat)
    requires SortedWithin(brkps, |s|) && 0 < n <= |brkps|
    ensures Joined(s, brkps, n) == s[..brkps[n - 1]]
  {
    if n == 1 {
      SegmentInRange(s, brkps, 0);
      assert Joined(s, brkps, 1) == Joined(s, brkps, 0) + Segment(s, brkps, 0);
    } else {
      JoinedPrefix(s, brkps, n - 1);
      JoinedStep(s, brkps, n);
    }
  }

  /** One more segment extends the joined prefix to the next breakpoint. */
  lemma JoinedStep<T>(s: seq<T>, brkps: seq<int>, n: nat)
    requires SortedWithin(brkps, |s|) && 1 < n <= |brkps|
    requires Joined(s, brkps, n - 1) == s[..brkps[n - 2]]
    ensures Joined(s, brkps, n) == s[..brkps[n - 1]]
  {
    SegmentInRange(s, brkps, n - 1);
    var a, b := brkps[n - 2], brkps[n - 1];
    assert Joined(s, brkps, n) == s[..a] + s[a..b];
    assert s[..a] + s[a..b] == s[..b];
  }

  /** For ordered breakpoints inside the series, the segments partition it:
      joined in order they give the series back. */
  lemma SegmentsPartition<T>(s: seq<T>, brkps: seq<int>)
    requires SortedWithin(brkps, |s|)
    ensures Joined(s, brkps, |brkps| + 1) == s
  {
    var k := |brkps|;
    SegmentInRange(s, brkps, k);
    if k > 0 {
      JoinedPrefix(s, brkps, k);
    }
    JoinedWithLast(s, brkps, SegmentStart(brkps, k));
  }

  /** Joining the last segment onto the ones before it, when those end
      where the last one starts, gives the series back. */
  lemma JoinedWithLast<T>(s: seq<T>, brkps: seq<int>, a: int)
    requires 0 <= a <= |s| && a == SegmentStart(brkps, |brkps|)
    requires Joined(s, brkps, |brkps|) == s[..a]
    ensures Joined(s, brkps, |brkps| + 1) == s
  {
    assert Segment(s, brkps, |brkps|) == s[a..];
    assert s[..a] + s[a..] == s;
  }

  /** A segment slices both series alike. */
  lemma SegmentLengths(x: seq<real>, y: seq<real>, brkps: seq<int>, i: nat)
    requires |x| == |y| && i <= |brkps|
    ensures |Segment(x, brkps, i)| == |Segment(y, brkps, i)|
  {
  }

  /** The values of a run of outcomes in turn, or the error of the first that raised. */
  function Collect<T>(rs: seq<Outcome<T>>): Outcome<seq<T>>
  {
    if rs == [] then Ok([])
    else
      match Collect(rs[..|rs| - 1])
      case Raised(e) => Raised(e)
      case Ok(vs) =>
        match rs[|rs| - 1]
        case Raised(e) => Raised(e)
        case Ok(v) => Ok(vs + [v])
  }

  /** A run of outcomes succeeds exactly when each one does, and then holds
      their values in order. */
  lemma {:induction false} CollectOk<T>(rs: seq<Outcome<T>>)
    ensures Collect(rs).Ok? <==> forall i :: 0 <= i < |rs| ==> rs[i].Ok?
    ensures Collect(rs).Ok? ==>
      |Collect(rs).value| == |rs| && forall i :: 0 <= i < |rs| ==> Collect(rs).value[i] == rs[i].value
  {
    if rs != [] {
      var init := rs[..|rs| - 1];
      CollectOk(init);
      assert forall i :: 0 <= i < |init| ==> init[i] == rs[i];
    }
  }

  /** In a run that succeeds, outcome i holds value i. */
  lemma CollectOkAt<T>(rs: seq<Outcome<T>>, i: nat)
    requires Collect(rs).Ok? && i < |rs|
    ensures |Collect(rs).value| == |rs| && rs[i] == Ok(Collect(rs).value[i])
  {
    CollectOk(rs);
  }

  /** Outcome j is the first of the run that raised. */
  predicate FirstRaised<T>(rs: seq<Outcome<T>>, j: int)
  {
    0 <= j < |rs| && rs[j].Raised? && forall i :: 0 <= i < j ==> rs[i].Ok?
  }

  /** A run of outcomes that raises raises the error of the first outcome
      that raised. */
  lemma {:induction false} CollectRaised<T>(rs: seq<Outcome<T>>)
    requires Collect(rs).Raised?
    ensures exists j :: FirstRaised(rs, j) && Collect(rs).error == rs[j].error
  {
    var init := rs[..|rs| - 1];
    assert forall i :: 0 <= i < |init| ==> init[i] == rs[i];
    if Collect(init).Raised? {
      CollectRaised(init);
      var j :| FirstRaised(init, j) && Collect(init).error == init[j].error;
      assert rs[j] == init[j];
    } else {
      CollectOk(init);
      assert rs[|rs| - 1].Raised?;
    }
  }

  /** One more outcome of a run. */
  lemma CollectNext<T>(rs: seq<Outcome<T>>, n: nat)
    requires n < |rs| && Collect(rs[..n]).Ok?
    ensures Collect(rs[..n + 1]) ==
      if rs[n].Raised? then Raised(rs[n].error) else Ok(Collect(rs[..n]).value + [rs[n].value])
  {
    assert rs[..n + 1][..n] == rs[..n];
  }

  /** Once a prefix of the run raises, the whole run raises the same error. */
  lemma {:induction false} CollectRaisedStays<T>(rs: seq<Outcome<T>>, n: nat)
    requires n <= |rs| && Collect(rs[..n]).Raised?
    ensures Collect(rs) == Collect(rs[..n])
    decreases |rs| - n
  {
    if n < |rs| {
      assert rs[..n + 1][..n] == rs[..n];
      CollectRaisedStays(rs, n + 1);
    } else {
      assert rs[..n] == rs;
    }
  }

  /** The outcome of the degree loop on each segment, in segment order. */
  function SegmentFits(x: seq<real>, y: seq<real>, brkps: seq<int>, fit: Fitter, maxDegPlus1: int, l: real)
    : (fits: seq<Outcome<seq<real>>>)
    requires |x| == |y| && ValidFitter(fit)
    ensures |fits| == |brkps| + 1
  {
    seq(|brkps| + 1, i requires 0 <= i <= |brkps| =>
      SegmentFit(Segment(x, brkps, i), Segment(y, brkps, i), fit, maxDegPlus1, l))
  }

  /** What `get_best_polys` computes: the polynomial of each segment in
      turn, or the error of the first segment that has none. */
  function BestPolys(x: seq<real>, y: seq<real>, brkps: seq<int>, fit: Fitter, maxDegPlus1: int, l: real)
    : (r: Outcome<seq<seq<real>>>)
    requires |x| == |y| && ValidFitter(fit)
    ensures r.Ok? ==> |r.value| == |brkps| + 1
  {
    CollectOk(SegmentFits(x, y, brkps, fit, maxDegPlus1, l));
    Collect(SegmentFits(x, y, brkps, fit, maxDegPlus1, l))
  }

  /** The slices of segment i of both series, given where it starts, and
      where the next segment starts. */
  method SegmentAt(x: seq<real>, y: seq<real>, brkps: seq<int>, i: nat, start: int)
    returns (xs: seq<real>, ys: seq<real>, start': int)
    requires |x| == |y| && i <= |brkps| && start == SegmentStart(brkps, i)
    ensures xs == Segment(x, brkps, i) && ys == Segment(y, brkps, i) && |xs| == |ys|
    ensures i < |brkps| ==> start' == SegmentStart(brkps, i + 1)
  {
    if i == |brkps| {
      xs, ys, start' := SliceFrom(x, start), SliceFrom(y, start), start;
    } else {
      xs, ys := Slice(x, start, brkps[i]), Slice(y, start, brkps[i]);
      start' := brkps[i];
    }
    SegmentLengths(x, y, brkps, i);
  }

  /** `get_best_polys` with the fitter applied to each segment at each degree:
      one polynomial per segment, in segment order. */
  method GetBestPolys(x: seq<real>, y: seq<real>, brkps: seq<int>, fit: Fitter, maxDegPlus1: int, l: real)
    returns (r: Outcome<seq<seq<real>>>)
    requires |x| == |y| && ValidFitter(fit)
    ensures r == BestPolys(x, y, brkps, fit, maxDegPlus1, l)
  {
    ghost var fits := SegmentFits(x, y, brkps, fit, maxDegPlus1, l);
    var bestPolys: seq<seq<real>> := [];
    var start := 0;
    var i := 0;
    while i < |brkps| + 1
      invariant 0 <= i <= |brkps| + 1
      invariant i <= |brkps| ==> start == SegmentStart(brkps, i)
      invariant Collect(fits[..i]) == Ok(bestPolys)
    {
      var xs, ys;
      xs, ys, start := SegmentAt(x, y, brkps, i, start);
      var best := BestFit(xs, ys, fit, maxDegPlus1, l);
      assert best == fits[i];
      CollectNext(fits, i);
      if best.Raised? {
        CollectRaisedStays(fits, i + 1);
        return Raised(best.error);
      }
      bestPolys := bestPolys + [best.value];
      i := i + 1;
    }
    assert fits[..i] == fits;
    r := Ok(bestPolys);
  }

  /** What `get_best_polys` returns: one polynomial per segment, in segment
      order, each the one the degree loop keeps for its segment. */
  lemma BestPolysPerSegment(x: seq<real>, y: seq<real>, brkps: seq<int>, fit: Fitter, maxDegPlus1: int, l: real)
    requires |x| == |y| && ValidFitter(fit)
    requires BestPolys(x, y, brkps, fit, maxDegPlus1, l).Ok?
    ensures var polys := BestPolys(x, y, brkps, fit, maxDegPlus1, l).value;
      |polys| == |brkps| + 1 &&
      forall i :: 0 <= i <= |brkps| ==>
        SegmentFit(Segment(x, brkps, i), Segment(y, brkps, i), fit, maxDegPlus1, l) == Ok(polys[i])
  {
    var fits := SegmentFits(x, y, brkps, fit, maxDegPlus1, l);
    CollectOkAt(fits, 0);
    var polys := BestPolys(x, y, brkps, fit, maxDegPlus1, l).value;
    forall i | 0 <= i <= |brkps|
      ensures SegmentFit(Segment(x, brkps, i), Segment(y, brkps, i), fit, maxDegPlus1, l) == Ok(polys[i])
    {
      CollectOkAt(fits, i);
    }
  }

  /** `get_best_polys` raises exactly when no degree is tried, or when some
      segment is empty; the error is the one the first failing segment raises. */
  lemma BestPolysRaises(x: seq<real>, y: seq<real>, brkps: seq<int>, fit: Fitter, maxDegPlus1: int, l: real)
    requires |x| == |y| && ValidFitter(fit)
    ensures var r := BestPolys(x, y, brkps, fit, maxDegPlus1, l);
      (r.Raised? <==> maxDegPlus1 <= 1 || exists i :: 0 <= i <= |brkps| && |Segment(x, brkps, i)| == 0) &&
      (r.Raised? ==> r.error == if maxDegPlus1 <= 1 then UnboundLocalError else TypeError)
  {
    var fits := SegmentFits(x, y, brkps, fit, maxDegPlus1, l);
    CollectOk(fits);
    if maxDegPlus1 <= 1 {
      assert fits[0].Raised?;
    }
    if exists i :: 0 <= i <= |brkps| && |Segment(x, brkps, i)| == 0 {
      var i :| 0 <= i <= |brkps| && |Segment(x, brkps, i)| == 0;
      SegmentLengths(x, y, brkps, i);
      assert fits[i].Raised?;
    }
    if Collect(fits).Raised? {
      CollectRaised(fits);
      var j :| FirstRaised(fits, j) && Collect(fits).error == fits[j].error;
      SegmentLengths(x, y, brkps, j);
    }
  }

  /** Each polynomial kept has between 2 and maxDegPlus1 coefficients. */
  lemma BestPolysDegrees(x: seq<real>, y: seq<real>, brkps: seq<int>, fit: Fitter, maxDegPlus1: int, l: real)
    requires |x| == |y| && ValidFitter(fit)
    requires BestPolys(x, y, brkps, fit, maxDegPlus1, l).Ok?
    ensures var polys := BestPolys(x, y, brkps, fit, maxDegPlus1, l).value;
      |polys| == |brkps| + 1 && forall i :: 0 <= i < |polys| ==> 2 <= |polys[i]| <= maxDegPlus1
  {
    BestPolysPerSegment(x, y, brkps, fit, maxDegPlus1, l);
    var polys := BestPolys(x, y, brkps, fit, maxDegPlus1, l).value;
    forall i | 0 <= i < |polys| ensures 2 <= |polys[i]| <= maxDegPlus1 {
      SegmentLengths(x, y, brkps, i);
    }
  }

  // ---------------------------------------------------------------------------
  // The loop as written

  /** `get_best_polys` as written: the first iteration reads `brkps[0]` past
      the end of an empty list; otherwise it calls `np.polyfit(x, y)` without
      the required degree, or, when no degree is tried, appends a polynomial
      that was never assigned. */
  function BestPolysAsWritten(x: seq<real>, y: seq<real>, brkps: seq<int>, maxDegPlus1: int): Outcome<seq<seq<real>>>
    requires |x| == |y|
  {
    if |brkps| == 0 then Raised(IndexError)
    else if maxDegPlus1 > 1 then Raised(TypeError)
    else Raised(UnboundLocalError)
  }

  /** A fitter that returns deg + 1 zero coefficients. */
  function ZeroFit(xs: seq<real>, ys: seq<real>, deg: nat): seq<real>
  {
    seq(deg + 1, _ => 0.0)
  }

  /** Two points on each side of one breakpoint: the code as written raises,
      while fitting each segment gives one polynomial per segment. */
  lemma BestPolysAsWrittenRaises()
    ensures BestPolysAsWritten([0.0, 1.0, 2.0, 3.0], [0.0, 1.0, 2.0, 3.0], [2], MaxDegPlus1) == Raised(TypeError)
    ensures BestPolysAsWritten([0.0, 1.0, 2.0, 3.0], [0.0, 1.0, 2.0, 3.0], [], MaxDegPlus1) == Raised(IndexError)
    ensures var r := BestPolys([0.0, 1.0, 2.0, 3.0], [0.0, 1.0, 2.0, 3.0], [2], ZeroFit, MaxDegPlus1, Penalty);
      r.Ok? && |r.value| == 2
  {
    var x: seq<real> := [0.0, 1.0, 2.0, 3.0];
    var brkps := [2];
    assert ValidFitter(ZeroFit);
    assert |Segment(x, brkps, 0)| == 2;
    assert |Segment(x, brkps, 1)| == 2;
    BestPolysRaises(x, x, brkps, ZeroFit, MaxDegPlus1, Penalty);
    BestPolysPerSegment(x, x, brkps, ZeroFit, MaxDegPlus1, Penalty);
  }
}
