/** The choices main and generate_output in guessproj.py make: what to
    print and the exit status. The printing itself, the reading of the
    points file and the WKT export through GDAL are not modelled; main's
    call of find_params is represented by the projection string it
    returned. */
module Output {
  import opened Common
  import opened Arguments
  import opened Points
  import opened Template
  import opened Formatting
  import opened Residuals
  import opened Fit

  /** What generate_output prints. */
  datatype Mode =
    | ProjString                 // the projection string alone
    | Wkt(pretty: bool)          // well-known text
    | Esri(pretty: bool)         // well-known text in ESRI's dialect
    | ProjStringAndResiduals     // the default: projection string and residual table

  /** generate_output's choice: `--proj`/`--proj4` over `--wkt` over
      `--esri`, and the default otherwise; `--pretty` only shapes WKT. */
  function OutputMode(options: map<string, OptionValue>): Mode {
    if "--proj" in options || "--proj4" in options then ProjString
    else if "--wkt" in options then Wkt("--pretty" in options)
    else if "--esri" in options then Esri("--pretty" in options)
    else ProjStringAndResiduals
  }

  /** One of the options that select an output format. */
  predicate FormatOption(options: map<string, OptionValue>) {
    "--proj" in options || "--proj4" in options || "--wkt" in options || "--esri" in options
  }

  /** What main does after parse_arguments. */
  datatype Outcome =
    | Usage                      // the usage text
    | Printed(mode: Mode)        // the result, as generate_output prints it
    | NotFound(message: bool)    // no solution; whether "Solution not found" is printed

  /** `options.get('--encoding', 'utf-8')`: the text of the option, `True`
      for a bare `--encoding`, UTF-8 when it is absent. */
  function Encoding(options: map<string, OptionValue>): OptionValue {
    if "--encoding" in options then options["--encoding"] else Text("utf-8")
  }

  /** main, given the parsed arguments and the projection string
      find_params returned (`None` when the fit did not converge). */
  function MainOutcome(args: Args, projstring: Option<string>): Outcome {
    if |args.unknown| == 0 || "-h" in args.options || "--help" in args.options then Usage
    else if projstring.Some? && projstring.value != [] then Printed(OutputMode(args.options))
    else NotFound(!FormatOption(args.options))
  }

  /** main's return value, the process exit status. */
  function ExitCode(o: Outcome): int {
    if o.NotFound? then 1 else 0
  }

  // ---------------------------------------------------------------------
  // Lemmas.

  /** The residual table is printed exactly when no format option is
      given; otherwise `--proj`/`--proj4` win over `--wkt`, which wins
      over `--esri`, and `--pretty` shapes only the WKT. */
  lemma OutputModeRule(options: map<string, OptionValue>)
    ensures OutputMode(options).ProjStringAndResiduals? <==> !FormatOption(options)
    ensures ("--proj" in options || "--proj4" in options) <==> OutputMode(options) == ProjString
    ensures "--wkt" in options && OutputMode(options) != ProjString ==> OutputMode(options).Wkt?
    ensures "--esri" in options && "--wkt" !in options && OutputMode(options) != ProjString ==> OutputMode(options).Esri?
    ensures OutputMode(options).ProjString? ==> "--proj" in options || "--proj4" in options
    ensures OutputMode(options).Wkt? ==> "--wkt" in options && OutputMode(options).pretty == ("--pretty" in options)
    ensures OutputMode(options).Esri? ==> "--esri" in options && "--wkt" !in options
    ensures OutputMode(options).Esri? ==> OutputMode(options).pretty == ("--pretty" in options)
  {
  }

  /** main exits with 0 exactly when it shows the usage text or prints a
      result, and prints a result exactly when there are unknowns, no help
      was asked for and find_params returned a non-empty string. */
  lemma ExitRule(args: Args, projstring: Option<string>)
    ensures var help := |args.unknown| == 0 || "-h" in args.options || "--help" in args.options;
      (ExitCode(MainOutcome(args, projstring)) == 0 <==> help || (projstring.Some? && projstring.value != []))
      && (MainOutcome(args, projstring).Printed? <==> !help && projstring.Some? && projstring.value != [])
  {
  }

  /** "Solution not found" is printed exactly when a found solution would
      have been printed in the default format, with its residuals. */
  lemma NotFoundMessage(args: Args, projstring: Option<string>, other: string)
    requires MainOutcome(args, projstring).NotFound? && other != []
    ensures MainOutcome(args, projstring).message <==> MainOutcome(args, Some(other)) == Printed(ProjStringAndResiduals)
  {
    OutputModeRule(args.options);
  }

  /** The whole run after parse_arguments: with an unknown, no request for
      help, well-formed keys, names and known values free of braces, points
      as read_points makes them, no more unknowns than residuals, a
      transform that keeps the number of coordinates, and a solver that
      converges with a value for every unknown, main prints the fitted
      projection string in the format the options choose and exits with 0. */
  lemma FitPrinted(args: Args, points: seq<Point>, toInt: string -> Option<int>, show: real -> string,
                   transform: Transform, solve: Solver, ps: seq<Param>)
    requires |args.unknown| > 0 && "-h" !in args.options && "--help" !in args.options
    requires KeysSplit(args.known, args.unknown, toInt)
    requires forall p :: p in ps <==> IsEntry(args.known, args.unknown, toInt, p)
    requires AllLiteral(ps)
    requires forall k :: 0 <= k < |points| ==> WellShaped(points[k])
    requires forall t: string, c: seq<real> :: |transform(args.src, t, c)| == |c|
    requires CountUnknown(ps, |ps|) <= Offset(points, |points|)
    requires var sol := solve(Residual(points, args.src, Strip(Layout(ps, |ps|)), show, transform), StartValues(ps, |ps|));
      Converged(sol.ier) && |sol.x| >= CountUnknown(ps, |ps|)
    ensures var r := FitSpec(ps, args.src, points, show, transform, solve);
      r.Ok? && r.value.Some?
      && MainOutcome(args, Some(r.value.value.projstring)) == Printed(OutputMode(args.options))
      && ExitCode(MainOutcome(args, Some(r.value.value.projstring))) == 0
  {
    var k :| k in args.unknown;
    UnknownListed(args.known, args.unknown, toInt, ps, k);
    EvaluatesWellShaped(ps, args.src, points, show, transform);
    FoundNonEmpty(ps, args.src, points, show, transform, solve);
  }
}
