/** find_params in guessproj.py: the parameters are collected and sorted,
    the template is laid out, the least-squares solver is run on the
    residual function of the template, and on convergence the template is
    filled with the solution, the solution is paired with the variable
    names and the final residual vector is cut into one tuple per point.
    leastsq first evaluates the residual function at the initial guesses,
    letting its exception through and refusing more unknowns than
    residuals; what it does after that is passed in: given the residual
    function and the initial guesses it returns the solution, the final
    residual vector (`infodict['fvec']`) and the status code `ier`. */
module Fit {
  import opened Common
  import opened Points
  import opened Template
  import opened Formatting
  import opened Residuals

  /** What leastsq(..., full_output=True) returns and find_params uses. */
  datatype Solution = Solution(x: seq<real>, fvec: seq<real>, ier: int)

  /** The objective, the residual function of the parameters. */
  type Objective = seq<real> -> Result<seq<real>, ResidualError>

  /** scipy's leastsq: from the objective and the initial guesses to the
      solution. */
  type Solver = (Objective, seq<real>) -> Solution

  /** What find_params returns when the fit converged. */
  datatype Found = Found(projstring: string, values: map<string, real>, residuals: seq<seq<real>>)

  /** The exceptions find_params raises or lets through. */
  datatype FitError =
    | InvalidKey(key: string)                // a key with more than one dot, or a non-integer index
    | ObjectiveFailed(error: ResidualError)  // target_func_template raised at the initial guesses
    | TooFewResiduals                        // leastsq's TypeError: more unknowns than residuals
    | TemplateRejected                       // the template cannot be filled with the solution

  /** `partial(target_func_template, points, src_proj, tgt_template)`. */
  function Residual(points: seq<Point>, srcProj: string, template: string,
                    show: real -> string, transform: Transform): Objective
  {
    (params: seq<real>) => TargetFunctionSpec(points, srcProj, template, params, show, transform)
  }

  /** leastsq's status codes that mean a solution was found. */
  predicate Converged(ier: int) {
    ier == 1 || ier == 2 || ier == 3 || ier == 4
  }

  /** `dict(zip(names, x))` over the first `n` pairs: later pairs win. */
  function Zip(names: seq<string>, x: seq<real>, n: nat): map<string, real>
    requires n <= |names| && n <= |x|
  {
    if n == 0 then map[] else Zip(names, x, n - 1)[names[n - 1] := x[n - 1]]
  }

  /** `dict(zip(names, x))`: zip stops at the shorter list. */
  function ResultDict(names: seq<string>, x: seq<real>): map<string, real> {
    Zip(names, x, if |names| < |x| then |names| else |x|)
  }

  /** leastsq's first evaluation of the residual function, at the
      initial guesses, succeeds with at least as many residuals as there
      are unknowns. */
  predicate Evaluates(ps: seq<Param>, srcProj: string, points: seq<Point>,
                      show: real -> string, transform: Transform)
  {
    var start := StartValues(ps, |ps|);
    var first := TargetFunctionSpec(points, srcProj, Strip(Layout(ps, |ps|)), start, show, transform);
    first.Ok? && |start| <= |first.value|
  }

  /** find_params after the parameters are sorted into `ps`. */
  function FitSpec(ps: seq<Param>, srcProj: string, points: seq<Point>,
                   show: real -> string, transform: Transform, solve: Solver): Result<Option<Found>, FitError>
  {
    var template := Strip(Layout(ps, |ps|));
    var start := StartValues(ps, |ps|);
    match TargetFunctionSpec(points, srcProj, template, start, show, transform)
    case Err(e) => Err(ObjectiveFailed(e))
    case Ok(first) =>
      if |start| > |first| then Err(TooFewResiduals)
      else
        var sol := solve(Residual(points, srcProj, template, show, transform), start);
        if !Converged(sol.ier) then Ok(None)
        else
          match Format(template, Shown(sol.x, show))
          case None => Err(TemplateRejected)
          case Some(projstring) =>
            Ok(Some(Found(projstring, ResultDict(VarNames(ps, |ps|), sol.x), Regroup(points, sol.fvec, |points|))))
  }

  /** find_params; `Ok(None)` is its `(None, None, None)`. The order the
      parameters were sorted into is returned beside the result; by
      Template.AscendingUnique it is the only ascending order of them. */
  method FindParams(srcProj: string, known: map<string, Option<string>>, unknown: map<string, real>,
                    points: seq<Point>, toInt: string -> Option<int>, show: real -> string,
                    transform: Transform, solve: Solver)
    returns (r: Result<Option<Found>, FitError>, ghost ps: seq<Param>)
    requires UniquePlaces(known, unknown, toInt)
    ensures !KeysSplit(known, unknown, toInt) ==>
      r.Err? && r.error.InvalidKey? && (r.error.key in known || r.error.key in unknown)
      && SplitKey(r.error.key, toInt).None?
    ensures KeysSplit(known, unknown, toInt) ==>
      Ascending(ps) && (forall p :: p in ps <==> IsEntry(known, unknown, toInt, p))
      && r == FitSpec(ps, srcProj, points, show, transform, solve)
  {
    var collected := CollectParams(known, unknown, toInt);
    if collected.Err? {
      return Err(InvalidKey(collected.error.key)), [];
    }
    var sorted := collected.value;
    ps := sorted;
    var template, startValues, varNames := BuildTemplate(sorted);
    var first := TargetFunction(points, srcProj, template, startValues, show, transform);
    if first.Err? {
      return Err(ObjectiveFailed(first.error)), ps;
    }
    if |startValues| > |first.value| {
      return Err(TooFewResiduals), ps;
    }
    var sol := solve(Residual(points, srcProj, template, show, transform), startValues);
    if !(sol.ier in {1, 2, 3, 4}) {
      return Ok(None), ps;
    }
    var filled := Format(template, Shown(sol.x, show));
    if filled.None? {
      return Err(TemplateRejected), ps;
    }
    var values := ResultDict(varNames, sol.x);
    var residuals := RegroupResiduals(points, sol.fvec);
    r := Ok(Some(Found(filled.value, values, residuals)));
  }

  // ---------------------------------------------------------------------
  // What find_params promises.

  /** The first evaluation decides whether leastsq runs at all: when
      target_func_template raises at the initial guesses, find_params
      raises the same exception, and when it yields fewer residuals than
      there are unknowns, leastsq's TypeError. */
  lemma StartRule(ps: seq<Param>, srcProj: string, points: seq<Point>,
                  show: real -> string, transform: Transform, solve: Solver)
    ensures var start := StartValues(ps, |ps|);
      var first := TargetFunctionSpec(points, srcProj, Strip(Layout(ps, |ps|)), start, show, transform);
      var r := FitSpec(ps, srcProj, points, show, transform, solve);
      (first.Err? <==> r.Err? && r.error.ObjectiveFailed?)
      && (first.Err? ==> r == Err(ObjectiveFailed(first.error)))
      && (first.Ok? && |first.value| < |start| <==> r == Err(TooFewResiduals))
      && (r.Ok? ==> Evaluates(ps, srcProj, points, show, transform))
  {
  }

  /** find_params gives up, returning `(None, None, None)`, exactly when
      the first evaluation succeeds and the solver's status is not 1, 2, 3
      or 4. */
  lemma GateRule(ps: seq<Param>, srcProj: string, points: seq<Point>,
                 show: real -> string, transform: Transform, solve: Solver)
    ensures var sol := solve(Residual(points, srcProj, Strip(Layout(ps, |ps|)), show, transform), StartValues(ps, |ps|));
      (FitSpec(ps, srcProj, points, show, transform, solve) == Ok(None)
       <==> Evaluates(ps, srcProj, points, show, transform) && sol.ier !in {1, 2, 3, 4})
  {
  }

  /** What a found fit is made of: the solver converged, and the string,
      the dictionary and the tuples come from its solution. */
  lemma FoundParts(ps: seq<Param>, srcProj: string, points: seq<Point>,
                   show: real -> string, transform: Transform, solve: Solver)
    requires FitSpec(ps, srcProj, points, show, transform, solve).Ok?
    requires FitSpec(ps, srcProj, points, show, transform, solve).value.Some?
    ensures var sol := solve(Residual(points, srcProj, Strip(Layout(ps, |ps|)), show, transform), StartValues(ps, |ps|));
      var found := FitSpec(ps, srcProj, points, show, transform, solve).value.value;
      Evaluates(ps, srcProj, points, show, transform) && Converged(sol.ier)
      && Format(Strip(Layout(ps, |ps|)), Shown(sol.x, show)) == Some(found.projstring)
      && found.values == ResultDict(VarNames(ps, |ps|), sol.x)
      && found.residuals == Regroup(points, sol.fvec, |points|)
  {
  }

  /** The first evaluation succeeds for points as read_points makes them,
      a transform that keeps the number of coordinates, as pyproj's does,
      names and known values free of braces, and no more unknowns than the
      points give residuals. */
  lemma EvaluatesWellShaped(ps: seq<Param>, srcProj: string, points: seq<Point>,
                            show: real -> string, transform: Transform)
    requires AllLiteral(ps)
    requires forall k :: 0 <= k < |points| ==> WellShaped(points[k])
    requires forall t: string, c: seq<real> :: |transform(srcProj, t, c)| == |c|
    requires CountUnknown(ps, |ps|) <= Offset(points, |points|)
    ensures Evaluates(ps, srcProj, points, show, transform)
  {
    var start := StartValues(ps, |ps|);
    var template := Strip(Layout(ps, |ps|));
    UnknownCounts(ps, |ps|);
    FormatTemplate(ps, Shown(start, show));
    var tgtProj := Format(template, Shown(start, show)).value;
    var project := (c: seq<real>) => transform(srcProj, tgtProj, c);
    forall k | 0 <= k < |points| ensures PointFits(points[k], project) {
      WellShapedFits(points[k], project);
    }
    TargetFunctionRule(points, srcProj, template, start, show, transform);
    ResidualsRoundTrip(points, srcProj, template, start, show, transform);
  }

  /** Later pairs of zip win, but distinct names each keep their value. */
  lemma {:induction false} ZipAt(names: seq<string>, x: seq<real>, n: nat, i: nat)
    requires n <= |names| && n <= |x| && i < n
    requires forall a, b :: 0 <= a < b < |names| ==> names[a] != names[b]
    ensures names[i] in Zip(names, x, n) && Zip(names, x, n)[names[i]] == x[i]
  {
    if i < n - 1 {
      ZipAt(names, x, n - 1, i);
    }
  }

  lemma {:induction false} ZipKeys(names: seq<string>, x: seq<real>, n: nat, key: string)
    requires n <= |names| && n <= |x|
    ensures key in Zip(names, x, n) <==> exists i :: 0 <= i < n && names[i] == key
  {
    if n > 0 {
      ZipKeys(names, x, n - 1, key);
      if key == names[n - 1] {
        assert names[n - 1] == key;
      }
    }
  }

  /** `result_dict` has exactly the names paired with a value as keys,
      and with distinct names the i-th name maps to the i-th value. */
  lemma ResultDictRule(names: seq<string>, x: seq<real>)
    ensures forall key :: key in ResultDict(names, x) <==> exists i :: 0 <= i < |names| && i < |x| && names[i] == key
    ensures (forall a, b :: 0 <= a < b < |names| ==> names[a] != names[b]) ==>
      forall i :: 0 <= i < |names| && i < |x| ==> names[i] in ResultDict(names, x) && ResultDict(names, x)[names[i]] == x[i]
  {
    var n := if |names| < |x| then |names| else |x|;
    forall key ensures key in ResultDict(names, x) <==> exists i :: 0 <= i < |names| && i < |x| && names[i] == key {
      ZipKeys(names, x, n, key);
    }
    if forall a, b :: 0 <= a < b < |names| ==> names[a] != names[b] {
      forall i | 0 <= i < |names| && i < |x| ensures names[i] in ResultDict(names, x) && ResultDict(names, x)[names[i]] == x[i] {
        ZipAt(names, x, n, i);
      }
    }
  }

  /** When the first evaluation succeeds and the solver converges, with a
      value for every unknown and names and known values free of braces,
      the fit is found, and its projection string
      is the parameters written out with the solution in place of the
      unknowns (less the whitespace strip() took from the ends). */
  lemma FitProjString(ps: seq<Param>, srcProj: string, points: seq<Point>,
                      show: real -> string, transform: Transform, solve: Solver)
    requires AllLiteral(ps) && Evaluates(ps, srcProj, points, show, transform)
    requires var sol := solve(Residual(points, srcProj, Strip(Layout(ps, |ps|)), show, transform), StartValues(ps, |ps|));
      Converged(sol.ier) && |sol.x| >= CountUnknown(ps, |ps|)
    ensures var sol := solve(Residual(points, srcProj, Strip(Layout(ps, |ps|)), show, transform), StartValues(ps, |ps|));
      var r := FitSpec(ps, srcProj, points, show, transform, solve);
      var l := Layout(ps, |ps|); var a := |l| - |StripLeft(l)|; var b := a + |Strip(l)|;
      r.Ok? && r.value.Some? && b <= |l|
      && Filled(ps, |ps|, Shown(sol.x, show)) == l[..a] + r.value.value.projstring + l[b..]
  {
    var sol := solve(Residual(points, srcProj, Strip(Layout(ps, |ps|)), show, transform), StartValues(ps, |ps|));
    FormatTemplate(ps, Shown(sol.x, show));
  }

  /** On success, `result_dict` maps the k-th unknown's variable name to
      the k-th value of the solution, when the parameters are in ascending
      order and their names carry no dot, as parse_arguments makes them. */
  lemma FitValues(ps: seq<Param>, srcProj: string, points: seq<Point>,
                  show: real -> string, transform: Transform, solve: Solver, k: nat)
    requires Ascending(ps) && forall i :: 0 <= i < |ps| ==> '.' !in ps[i].name
    requires FitSpec(ps, srcProj, points, show, transform, solve).Ok?
    requires FitSpec(ps, srcProj, points, show, transform, solve).value.Some?
    requires var sol := solve(Residual(points, srcProj, Strip(Layout(ps, |ps|)), show, transform), StartValues(ps, |ps|));
      k < |VarNames(ps, |ps|)| && k < |sol.x|
    ensures var sol := solve(Residual(points, srcProj, Strip(Layout(ps, |ps|)), show, transform), StartValues(ps, |ps|));
      var values := FitSpec(ps, srcProj, points, show, transform, solve).value.value.values;
      VarNames(ps, |ps|)[k] in values && values[VarNames(ps, |ps|)[k]] == sol.x[k]
  {
    FoundParts(ps, srcProj, points, show, transform, solve);
    VarNamesDistinct(ps, |ps|);
    ResultDictRule(VarNames(ps, |ps|), solve(Residual(points, srcProj, Strip(Layout(ps, |ps|)), show, transform), StartValues(ps, |ps|)).x);
  }

  /** On success there is one residual tuple per point; when the solver's
      residual vector has the length the points lay out, the tuples have
      the points' widths and concatenate back to that vector. */
  lemma FitResiduals(ps: seq<Param>, srcProj: string, points: seq<Point>,
                     show: real -> string, transform: Transform, solve: Solver)
    requires FitSpec(ps, srcProj, points, show, transform, solve).Ok?
    requires FitSpec(ps, srcProj, points, show, transform, solve).value.Some?
    ensures var sol := solve(Residual(points, srcProj, Strip(Layout(ps, |ps|)), show, transform), StartValues(ps, |ps|));
      var rs := FitSpec(ps, srcProj, points, show, transform, solve).value.value.residuals;
      |rs| == |points|
      && (|sol.fvec| == Offset(points, |points|) ==>
            Concat(rs) == sol.fvec && forall k :: 0 <= k < |points| ==> |rs[k]| == Width(points[k]))
  {
    FoundParts(ps, srcProj, points, show, transform, solve);
    var sol := solve(Residual(points, srcProj, Strip(Layout(ps, |ps|)), show, transform), StartValues(ps, |ps|));
    RegroupLength(points, sol.fvec, |points|);
    if |sol.fvec| == Offset(points, |points|) {
      var rs := Regroup(points, sol.fvec, |points|);
      RegroupAt(points, sol.fvec, |points|);
      ConcatRegroup(points, sol.fvec, |points|);
      assert sol.fvec[..Offset(points, |points|)] == sol.fvec;
      forall k | 0 <= k < |points| ensures |rs[k]| == Width(points[k]) {
        assert Occupies(sol.fvec, points, k, rs[k]);
      }
    }
  }

  /** When the solver's residual vector is the objective at its solution,
      as leastsq reports it, tuple k holds point k's residuals under the
      projection string find_params returns. */
  lemma FitResidualsMeaning(ps: seq<Param>, srcProj: string, points: seq<Point>,
                            show: real -> string, transform: Transform, solve: Solver)
    requires FitSpec(ps, srcProj, points, show, transform, solve).Ok?
    requires FitSpec(ps, srcProj, points, show, transform, solve).value.Some?
    requires var f := Residual(points, srcProj, Strip(Layout(ps, |ps|)), show, transform);
      var sol := solve(f, StartValues(ps, |ps|));
      f(sol.x) == Ok(sol.fvec)
    ensures var found := FitSpec(ps, srcProj, points, show, transform, solve).value.value;
      |found.residuals| == |points|
      && forall k :: 0 <= k < |points| ==>
        PointResiduals(points[k], transform(srcProj, found.projstring, points[k].src)).Some?
        && found.residuals[k] == PointResiduals(points[k], transform(srcProj, found.projstring, points[k].src)).value
  {
    FoundParts(ps, srcProj, points, show, transform, solve);
    var template := Strip(Layout(ps, |ps|));
    var sol := solve(Residual(points, srcProj, template, show, transform), StartValues(ps, |ps|));
    ResidualsRoundTrip(points, srcProj, template, sol.x, show, transform);
  }

  /** A filled string opens with ` +` or `,`, so it is never blank. */
  lemma {:induction false} FilledMark(ps: seq<Param>, n: nat, args: seq<string>)
    requires 1 <= n <= |ps| && CountUnknown(ps, n) <= |args|
    ensures var f := Filled(ps, n, args); (|f| >= 1 && !IsSpace(f[0])) || (|f| >= 2 && !IsSpace(f[1]))
  {
    if n == 1 {
      var r := Render(ps[0], Field(ps[0], 0, args));
      assert Filled(ps, 1, args) == r;
      if ps[0].index == 0 {
        assert r[1] == '+';
      } else {
        assert r[0] == ',';
      }
    } else {
      FilledMark(ps, n - 1, args);
      var f0 := Filled(ps, n - 1, args);
      assert Filled(ps, n, args)[..|f0|] == f0;
    }
  }

  /** A string that is blank except for its middle has a non-empty middle
      if it has a non-blank character. */
  lemma BlankEnds(pre: string, v: string, post: string, i: nat)
    requires forall j :: 0 <= j < |pre| ==> IsSpace(pre[j])
    requires forall j :: 0 <= j < |post| ==> IsSpace(post[j])
    requires i < |pre + v + post| && !IsSpace((pre + v + post)[i])
    ensures v != []
  {
  }

  /** With at least one parameter and a first evaluation that succeeds, a
      converged fit that has a value for every unknown yields a non-empty projection string, so main goes on
      to print it. */
  lemma FoundNonEmpty(ps: seq<Param>, srcProj: string, points: seq<Point>,
                      show: real -> string, transform: Transform, solve: Solver)
    requires ps != [] && AllLiteral(ps) && Evaluates(ps, srcProj, points, show, transform)
    requires var sol := solve(Residual(points, srcProj, Strip(Layout(ps, |ps|)), show, transform), StartValues(ps, |ps|));
      Converged(sol.ier) && |sol.x| >= CountUnknown(ps, |ps|)
    ensures var r := FitSpec(ps, srcProj, points, show, transform, solve);
      r.Ok? && r.value.Some? && r.value.value.projstring != []
  {
    var sol := solve(Residual(points, srcProj, Strip(Layout(ps, |ps|)), show, transform), StartValues(ps, |ps|));
    var args := Shown(sol.x, show);
    FitProjString(ps, srcProj, points, show, transform, solve);
    FilledMark(ps, |ps|, args);
    StripInfix(Layout(ps, |ps|));
    var l := Layout(ps, |ps|);
    var a := |l| - |StripLeft(l)|;
    var b := a + |Strip(l)|;
    var f := Filled(ps, |ps|, args);
    var i := if |f| >= 1 && !IsSpace(f[0]) then 0 else 1;
    BlankEnds(l[..a], FitSpec(ps, srcProj, points, show, transform, solve).value.value.projstring, l[b..], i);
  }

  /** Every unknown key contributes an unknown entry to the sorted list, so
      with an unknown there is a parameter to lay out and a value to fit. */
  lemma UnknownListed(known: map<string, Option<string>>, unknown: map<string, real>,
                      toInt: string -> Option<int>, ps: seq<Param>, k: string)
    requires KeysSplit(known, unknown, toInt) && k in unknown
    requires forall p :: p in ps <==> IsEntry(known, unknown, toInt, p)
    ensures UnknownParam(unknown, k, toInt) in ps && ps != []
  {
    var p := UnknownParam(unknown, k, toInt);
    assert UnknownEntry(unknown, toInt, p);
  }
}
