/** The residual vector of guessproj.py (target_func_template) and its
    regrouping after the fit (the end of find_params): two residuals per
    point, a third when both the source and the target coordinates are
    three-dimensional, and the flat vector cut back into one tuple per
    point by the same rule. The projection library is passed in as a
    function from the source and target projection strings and a
    coordinate tuple to the transformed tuple. */
module Residuals {
  import opened Common
  import opened Points
  import opened Formatting

  /** pyproj's `transform(Proj(src), Proj(tgt), *coords)`. */
  type Transform = (string, string, seq<real>) -> seq<real>

  /** The exceptions target_func_template raises. */
  datatype ResidualError =
    | FormatFailed       // the template cannot be filled with the parameters
    | BadArity           // a source tuple with neither two nor three coordinates
    | MissingCoordinate  // an index past the end of a target or transformed tuple

  /** How many residuals a point contributes. */
  function Width(pt: Point): nat {
    if |pt.src| == 3 && |pt.tgt| == 3 then 3 else 2
  }

  /** Where point n's residuals start in the flat vector. */
  function Offset(points: seq<Point>, n: nat): nat
    requires n <= |points|
  {
    if n == 0 then 0 else Offset(points, n - 1) + Width(points[n - 1])
  }

  /** The residuals of one point: target minus transformed x and y, and
      when both tuples are three-dimensional the source z minus the
      transformed z (the source z, as the code is written). */
  function PointResiduals(pt: Point, tpt: seq<real>): Option<seq<real>> {
    if |pt.tgt| < 2 || |tpt| < 2 then None
    else if Width(pt) == 3 then
      if |tpt| < 3 then None
      else Some([pt.tgt[0] - tpt[0], pt.tgt[1] - tpt[1], pt.src[2] - tpt[2]])
    else Some([pt.tgt[0] - tpt[0], pt.tgt[1] - tpt[1]])
  }

  /** The residuals of the first `n` points, one tuple each, or the first
      exception. */
  function Groups(points: seq<Point>, project: seq<real> -> seq<real>, n: nat): Result<seq<seq<real>>, ResidualError>
    requires n <= |points|
  {
    if n == 0 then Ok([])
    else match Groups(points, project, n - 1)
      case Err(e) => Err(e)
      case Ok(gs) =>
        var pt := points[n - 1];
        if |pt.src| != 2 && |pt.src| != 3 then Err(BadArity)
        else match PointResiduals(pt, project(pt.src))
          case None => Err(MissingCoordinate)
          case Some(r) => Ok(gs + [r])
  }

  /** The tuples laid end to end. */
  function Concat(gs: seq<seq<real>>): seq<real> {
    if gs == [] then [] else Concat(gs[..|gs| - 1]) + gs[|gs| - 1]
  }

  /** The format arguments `*params`: each value as str() writes it. */
  function Shown(params: seq<real>, show: real -> string): (args: seq<string>)
    ensures |args| == |params| && forall k :: 0 <= k < |params| ==> args[k] == show(params[k])
  {
    seq(|params|, k requires 0 <= k < |params| => show(params[k]))
  }

  /** target_func_template(points, src_proj, tgt_template, params). */
  function TargetFunctionSpec(points: seq<Point>, srcProj: string, template: string, params: seq<real>,
                              show: real -> string, transform: Transform): Result<seq<real>, ResidualError>
  {
    match Format(template, Shown(params, show))
    case None => Err(FormatFailed)
    case Some(tgtProj) =>
      match Groups(points, (c: seq<real>) => transform(srcProj, tgtProj, c), |points|)
      case Err(e) => Err(e)
      case Ok(gs) => Ok(Concat(gs))
  }

  lemma {:induction false} GroupsErrSticks(points: seq<Point>, project: seq<real> -> seq<real>, i: nat, n: nat)
    requires i <= n <= |points| && Groups(points, project, i).Err?
    ensures Groups(points, project, n) == Groups(points, project, i)
    decreases n
  {
    if n > i {
      GroupsErrSticks(points, project, i, n - 1);
    }
  }

  lemma GroupsNext(points: seq<Point>, project: seq<real> -> seq<real>, i: nat, gs: seq<seq<real>>)
    requires i < |points| && Groups(points, project, i) == Ok(gs)
    requires |points[i].src| == 2 || |points[i].src| == 3
    requires PointResiduals(points[i], project(points[i].src)).Some?
    ensures var g := PointResiduals(points[i], project(points[i].src)).value;
      Groups(points, project, i + 1) == Ok(gs + [g]) && Concat(gs + [g]) == Concat(gs) + g
  {
    var g := PointResiduals(points[i], project(points[i].src)).value;
    assert (gs + [g])[..|gs|] == gs;
  }

  /** One pass of target_func_template's loop body after the point is
      transformed: the residuals of `pt` appended to `result`, or `None`
      where a coordinate is missing. */
  method AppendResiduals(result: seq<real>, pt: Point, tpt: seq<real>) returns (r: Option<seq<real>>)
    ensures r == (match PointResiduals(pt, tpt) case None => None case Some(g) => Some(result + g))
  {
    if |pt.tgt| < 2 || |tpt| < 2 {
      return None;
    }
    var out := result + [pt.tgt[0] - tpt[0]];
    out := out + [pt.tgt[1] - tpt[1]];
    if |pt.src| == 3 && |pt.tgt| == 3 {
      if |tpt| < 3 {
        return None;
      }
      out := out + [pt.src[2] - tpt[2]];
      assert out == result + [pt.tgt[0] - tpt[0], pt.tgt[1] - tpt[1], pt.src[2] - tpt[2]];
    } else {
      assert out == result + [pt.tgt[0] - tpt[0], pt.tgt[1] - tpt[1]];
    }
    return Some(out);
  }

  /** target_func_template as the source runs it: the placeholders are
      filled, then each point's residuals are appended to one list. */
  method TargetFunction(points: seq<Point>, srcProj: string, template: string, params: seq<real>,
                        show: real -> string, transform: Transform) returns (r: Result<seq<real>, ResidualError>)
    ensures r == TargetFunctionSpec(points, srcProj, template, params, show, transform)
  {
    var f := Format(template, Shown(params, show));
    if f.None? {
      return Err(FormatFailed);
    }
    var tgtProj := f.value;
    ghost var project := (c: seq<real>) => transform(srcProj, tgtProj, c);
    var result: seq<real> := [];
    ghost var gs: seq<seq<real>> := [];
    for i := 0 to |points|
      invariant Groups(points, project, i) == Ok(gs) && result == Concat(gs)
    {
      var pt := points[i];
      if |pt.src| != 2 && |pt.src| != 3 {
        GroupsErrSticks(points, project, i + 1, |points|);
        return Err(BadArity);
      }
      var tpt := transform(srcProj, tgtProj, pt.src);
      var next := AppendResiduals(result, pt, tpt);
      if next.None? {
        GroupsErrSticks(points, project, i + 1, |points|);
        return Err(MissingCoordinate);
      }
      GroupsNext(points, project, i, gs);
      gs := gs + [PointResiduals(pt, tpt).value];
      result := next.value;
    }
    r := Ok(result);
  }

  // ---------------------------------------------------------------------
  // Cutting the solution's residual vector back into tuples.

  /** Python's `s[i:j]` for `0 <= i <= j`: clamped to the sequence. */
  function Slice(s: seq<real>, i: nat, j: nat): (r: seq<real>)
    requires i <= j
  {
    s[(if i < |s| then i else |s|)..(if j < |s| then j else |s|)]
  }

  /** The tuples of the first `n` points, as the regrouping loop cuts them. */
  function Regroup(points: seq<Point>, fvec: seq<real>, n: nat): seq<seq<real>>
    requires n <= |points|
  {
    if n == 0 then []
    else Regroup(points, fvec, n - 1) + [Slice(fvec, Offset(points, n - 1), Offset(points, n - 1) + Width(points[n - 1]))]
  }

  /** The loop over points that cuts `fvec` into `residuals`. */
  method RegroupResiduals(points: seq<Point>, fvec: seq<real>) returns (residuals: seq<seq<real>>)
    ensures residuals == Regroup(points, fvec, |points|)
  {
    residuals := [];
    var i := 0;
    for k := 0 to |points|
      invariant i == Offset(points, k) && residuals == Regroup(points, fvec, k)
    {
      var pt := points[k];
      if |pt.src| == 3 && |pt.tgt| == 3 {
        residuals := residuals + [Slice(fvec, i, i + 3)];
        i := i + 3;
      } else {
        residuals := residuals + [Slice(fvec, i, i + 2)];
        i := i + 2;
      }
    }
  }

  // ---------------------------------------------------------------------
  // What the layout and the regrouping promise.

  /** A point passes target_func_template: two or three source
      coordinates, and target and transformed tuples long enough. */
  predicate PointFits(pt: Point, project: seq<real> -> seq<real>) {
    (|pt.src| == 2 || |pt.src| == 3) && PointResiduals(pt, project(pt.src)).Some?
  }

  /** Points as read_points makes them always fit when the transform keeps
      the number of coordinates, as pyproj's does. */
  lemma WellShapedFits(pt: Point, project: seq<real> -> seq<real>)
    requires WellShaped(pt) && |project(pt.src)| == |pt.src|
    ensures PointFits(pt, project)
  {
  }

  /** The residuals exist exactly when every point fits; then there is one
      tuple per point, in point order, of the point's width, holding that
      point's residuals. */
  lemma {:induction false} GroupsRule(points: seq<Point>, project: seq<real> -> seq<real>, n: nat)
    requires n <= |points|
    ensures Groups(points, project, n).Ok? <==> forall k :: 0 <= k < n ==> PointFits(points[k], project)
    ensures Groups(points, project, n).Ok? ==>
      var gs := Groups(points, project, n).value;
      |gs| == n
      && forall k :: 0 <= k < n ==>
           |gs[k]| == Width(points[k]) && gs[k] == PointResiduals(points[k], project(points[k].src)).value
  {
    if n > 0 {
      GroupsRule(points, project, n - 1);
      if Groups(points, project, n - 1).Err? {
        assert Groups(points, project, n).Err?;
      }
    }
  }

  /** Positions Offset(k) to Offset(k + 1) of `v` hold the tuple `g`. */
  ghost predicate Occupies(v: seq<real>, points: seq<Point>, k: nat, g: seq<real>)
    requires k < |points|
  {
    Offset(points, k + 1) <= |v| && v[Offset(points, k)..Offset(points, k + 1)] == g
  }

  /** Tuples of the points' widths laid end to end. */
  ghost predicate Fitted(points: seq<Point>, gs: seq<seq<real>>, n: nat) {
    n <= |points| && |gs| == n && forall k :: 0 <= k < n ==> |gs[k]| == Width(points[k])
  }

  lemma {:induction false} ConcatLength(points: seq<Point>, gs: seq<seq<real>>, n: nat)
    requires Fitted(points, gs, n)
    ensures |Concat(gs)| == Offset(points, n)
  {
    if n > 0 {
      assert Fitted(points, gs[..n - 1], n - 1);
      ConcatLength(points, gs[..n - 1], n - 1);
    }
  }

  lemma {:induction false} OffsetMonotone(points: seq<Point>, m: nat, n: nat)
    requires m <= n <= |points|
    ensures Offset(points, m) <= Offset(points, n)
    decreases n
  {
    if m < n {
      OffsetMonotone(points, m, n - 1);
    }
  }

  lemma {:induction false} ConcatAtOne(points: seq<Point>, gs: seq<seq<real>>, n: nat, k: nat)
    requires Fitted(points, gs, n) && k < n
    ensures Occupies(Concat(gs), points, k, gs[k])
  {
    var init := gs[..n - 1];
    assert Fitted(points, init, n - 1);
    ConcatLength(points, init, n - 1);
    var c := Concat(gs);
    assert c == Concat(init) + gs[n - 1];
    if k < n - 1 {
      ConcatAtOne(points, init, n - 1, k);
      OffsetMonotone(points, k + 1, n - 1);
      assert init[k] == gs[k];
      assert c[Offset(points, k)..Offset(points, k + 1)] == Concat(init)[Offset(points, k)..Offset(points, k + 1)];
    }
  }

  /** Laid end to end, tuple k of the right widths occupies positions
      Offset(k) to Offset(k + 1). */
  lemma ConcatAt(points: seq<Point>, gs: seq<seq<real>>, n: nat)
    requires Fitted(points, gs, n)
    ensures |Concat(gs)| == Offset(points, n)
    ensures forall k :: 0 <= k < n ==> Occupies(Concat(gs), points, k, gs[k])
  {
    ConcatLength(points, gs, n);
    forall k | 0 <= k < n ensures Occupies(Concat(gs), points, k, gs[k]) {
      ConcatAtOne(points, gs, n, k);
    }
  }

  lemma {:induction false} RegroupLength(points: seq<Point>, fvec: seq<real>, n: nat)
    requires n <= |points|
    ensures |Regroup(points, fvec, n)| == n
  {
    if n > 0 {
      RegroupLength(points, fvec, n - 1);
    }
  }

  lemma {:induction false} RegroupAtOne(points: seq<Point>, fvec: seq<real>, n: nat, k: nat)
    requires n <= |points| && Offset(points, n) <= |fvec| && k < n
    ensures |Regroup(points, fvec, n)| == n
    ensures Occupies(fvec, points, k, Regroup(points, fvec, n)[k])
  {
    RegroupLength(points, fvec, n);
    RegroupLength(points, fvec, n - 1);
    OffsetMonotone(points, n - 1, n);
    if k < n - 1 {
      OffsetMonotone(points, n - 1, n);
      RegroupAtOne(points, fvec, n - 1, k);
    }
  }

  /** With enough residuals, tuple k is exactly positions Offset(k) to
      Offset(k + 1) of the vector. */
  lemma RegroupAt(points: seq<Point>, fvec: seq<real>, n: nat)
    requires n <= |points| && Offset(points, n) <= |fvec|
    ensures |Regroup(points, fvec, n)| == n
    ensures forall k :: 0 <= k < n ==> Occupies(fvec, points, k, Regroup(points, fvec, n)[k])
  {
    RegroupLength(points, fvec, n);
    forall k | 0 <= k < n ensures Occupies(fvec, points, k, Regroup(points, fvec, n)[k]) {
      RegroupAtOne(points, fvec, n, k);
    }
  }

  /** Regrouping and concatenating give the vector back. */
  lemma {:induction false} ConcatRegroup(points: seq<Point>, fvec: seq<real>, n: nat)
    requires n <= |points| && Offset(points, n) <= |fvec|
    ensures Concat(Regroup(points, fvec, n)) == fvec[..Offset(points, n)]
  {
    if n > 0 {
      var a, b := Offset(points, n - 1), Offset(points, n);
      OffsetMonotone(points, n - 1, n);
      ConcatRegroup(points, fvec, n - 1);
      var prev := Regroup(points, fvec, n - 1);
      assert Regroup(points, fvec, n) == prev + [fvec[a..b]];
      ConcatSnoc(prev, fvec[a..b]);
      assert fvec[..b] == fvec[..a] + fvec[a..b];
    }
  }

  lemma ConcatSnoc(gs: seq<seq<real>>, g: seq<real>)
    ensures Concat(gs + [g]) == Concat(gs) + g
  {
    assert (gs + [g])[..|gs|] == gs;
  }

  /** The residual vector of target_func_template regroups into the tuples
      it was laid out from. */
  lemma RegroupConcat(points: seq<Point>, gs: seq<seq<real>>)
    requires |gs| == |points|
    requires forall k :: 0 <= k < |points| ==> |gs[k]| == Width(points[k])
    ensures Regroup(points, Concat(gs), |points|) == gs
  {
    var n := |points|;
    assert Fitted(points, gs, n);
    ConcatAt(points, gs, n);
    RegroupAt(points, Concat(gs), n);
    var rs := Regroup(points, Concat(gs), n);
    forall k | 0 <= k < n ensures rs[k] == gs[k] {
      assert Occupies(Concat(gs), points, k, gs[k]);
      assert Occupies(Concat(gs), points, k, rs[k]);
    }
  }

  /** The flatten/regroup round trip of find_params: when
      target_func_template succeeds, regrouping its vector gives one tuple
      per point, in point order, holding that point's residuals; and a
      vector of the full length regroups and concatenates back to itself. */
  lemma ResidualsRoundTrip(points: seq<Point>, srcProj: string, template: string, params: seq<real>,
                           show: real -> string, transform: Transform)
    requires TargetFunctionSpec(points, srcProj, template, params, show, transform).Ok?
    ensures var r := TargetFunctionSpec(points, srcProj, template, params, show, transform).value;
      var tgtProj := Format(template, Shown(params, show)).value;
      |r| == Offset(points, |points|)
      && |Regroup(points, r, |points|)| == |points|
      && (forall k :: 0 <= k < |points| ==>
            PointResiduals(points[k], transform(srcProj, tgtProj, points[k].src)).Some?
            && Regroup(points, r, |points|)[k] == PointResiduals(points[k], transform(srcProj, tgtProj, points[k].src)).value)
      && Concat(Regroup(points, r, |points|)) == r
  {
    var tgtProj := Format(template, Shown(params, show)).value;
    var project := (c: seq<real>) => transform(srcProj, tgtProj, c);
    GroupsRule(points, project, |points|);
    var gs := Groups(points, project, |points|).value;
    ConcatAt(points, gs, |points|);
    RegroupConcat(points, gs);
    ConcatRegroup(points, Concat(gs), |points|);
  }

  /** target_func_template raises exactly when the template cannot be
      filled or some point does not fit. */
  lemma TargetFunctionRule(points: seq<Point>, srcProj: string, template: string, params: seq<real>,
                           show: real -> string, transform: Transform)
    ensures var f := Format(template, Shown(params, show));
      TargetFunctionSpec(points, srcProj, template, params, show, transform).Ok? <==>
        f.Some? && forall k :: 0 <= k < |points| ==> PointFits(points[k], (c: seq<real>) => transform(srcProj, f.value, c))
  {
    var f := Format(template, Shown(params, show));
    if f.Some? {
      GroupsRule(points, (c: seq<real>) => transform(srcProj, f.value, c), |points|);
    }
  }
}
