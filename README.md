# guessproj: the bookkeeping around the projection fit

guessproj estimates the unknown parameters of a target cartographic
projection from control points: points whose coordinates are known in a
source system and in the target system. The user writes the target
projection as PROJ.4 tokens (`+proj=tmerc +lon_0=39 +x_0=~300000 ...`).
A `~` marks a value as unknown, and the text after it is the initial guess.
The tool then
lays out a projection-string template with one `str.format` placeholder per
unknown, asks a least-squares solver (scipy's `leastsq`) to minimise the
residuals of the transformed points (computed by pyproj), and fills the
template with the solution.

This Dafny project models the discrete part of that program, all of it in
`guessproj.py`:

- `common.dfy` (module `Common`): Option/Result, and the Python string
  operations the tool relies on (`startswith`, `split(sep)`, `join`,
  `strip`, `split()`, `split(None, n)`, `str(int)`).
- `arguments.dfy` (`Arguments`): the command-line reader `parse_arguments`.
  It produces source tokens, options, known/unknown target slots and the
  file name, plus its exceptions.
- `coordinates.dfy` (`Coordinates`): `parse_coord`, which reads decimal or
  degree-minute-second text. Values are exact `real`s.
- `points.dfy` (`Points`): the line rule of `read_points` and the loop over
  the lines of a file.
- `template.dfy` (`Template`): the first half of `find_params`. It collects
  `(name, index)` entries from the two dictionaries, sorts them, and lays out
  the template, `start_values` and `var_names`.
- `formatting.dfy` (`Formatting`): `str.format` on such templates, and what
  filling a template yields.
- `residuals.dfy` (`Residuals`): `target_func_template`, the flat residual
  vector, and the regrouping of `fvec` into per-point tuples.
- `fit.dfy` (`Fit`): the rest of `find_params`. It covers the solver status
  gate, `result_dict`, the filled projection string and the residual tuples.
- `output.dfy` (`Output`): the output-mode choice of `generate_output`, and
  `main`'s choice of usage, output or "Solution not found", with its exit
  code.

Everything the code cannot compute by itself is a parameter. These are
Python's `float()` on arbitrary text (`num`), `int()` (`toInt`), `str()` of a
float (`show`), pyproj's transform (`transform`) and scipy's solver
(`solve`). The loops of the source are methods with loop invariants. Each
method is proved equal to a specification function, and the properties are
lemmas about those functions.

Some things `guessproj.py` does not do, so the model does not either:

- it applies no `k_0`/`x_0`/`y_0`/`z_0` modifiers after the transform;
- with nothing unknown, `main` prints the usage text and fits nothing;
- the result string is printed as `str.format` fills the template, with
  no canonicalising step;
- the third residual of a point, at `guessproj.py:59`, subtracts the
  transformed z from the SOURCE z, not from the target z.
  `Residuals.PointResiduals` does the same.

## Model

| member | source | states |
|---|---|---|
| `Arguments.ParseArguments` | guessproj.py:127-176 | The token loop computes the specification `ParseArgumentsSpec`: the first exception, or the source string, slots, options and file name after all tokens |
| `Arguments.ApplyToken` | guessproj.py:133-171 | One token's effect (option, target parameter, file name, `+to`, source token or `Unexpected token`) equals the step function `Step` |
| `Arguments.StoreSubvalues` | guessproj.py:150-160 | The sub-value loop stores each comma-separated sub-value, or stops at the first unreadable guess |
| `Arguments.ParseArgumentsRule` | guessproj.py:127-176 | parse_arguments succeeds iff every token is accepted. On success the source is the `+` tokens before the first `+to` joined by single spaces, or `+proj=longlat +ellps=WGS84 +datum=WGS84 +no_defs` when there are none. The file name is the last file token, or `None` without one |
| `Arguments.AcceptRule` | guessproj.py:133-171 | A prefix of the tokens passes iff each token is accepted. Options are always accepted. Before `+to` only `+` tokens are. After it, parameters matching the pattern, and a file name only while no non-empty one was seen |
| `Arguments.StepWithOk` | guessproj.py:133-171 | A single token step raises exactly on the tokens `TokenOk` refuses |
| `Arguments.UptoTarget` | guessproj.py:166-167 | Target mode holds exactly after the first `+to` |
| `Arguments.UptoSource` | guessproj.py:168-169 | The source list is the `+` tokens before the first `+to`, in order |
| `Arguments.UptoFile` | guessproj.py:161-164 | The file name is `None` iff no file token has been seen, else the last file token |
| `Arguments.ParseArgumentsOptions` | guessproj.py:134-139 | The option keys are exactly those given by `-` tokens, and each maps to the value of its last token |
| `Arguments.OptionEntrySplit` | guessproj.py:135-139 | A `-` token without `=` is a flag under its own text. With `=` it is key, `=`, value, and the key holds no `=` |
| `Arguments.ParamMatchSound` | guessproj.py:142-146 | A match of `^\+([0-9a-zA-Z_]+)([=~].*)?$` gives a non-empty name of word characters and a value starting with `=` or `~`, which together make up the token |
| `Arguments.ParamMatchComplete` | guessproj.py:142-146 | Every token of that shape matches, with exactly those two groups |
| `Arguments.ClassifyPrefix` | guessproj.py:153-160 | `~v` and `=~v` are unknown with guess text `v`. `=v` is known with text `v`. Any other text is known as it stands |
| `Arguments.KeyInjective` | guessproj.py:152 | The keys `name`, `name.1`, `name.2`, ... of one parameter are pairwise distinct |
| `Arguments.StoresOk` | guessproj.py:150-160 | Storing a parameter's sub-values succeeds iff every unknown guess is a number |
| `Arguments.StoresSlots` | guessproj.py:150-160 | After storing, sub-value i sits under `name` (i = 0) or `name.i`, in the dictionary its prefix selects |
| `Arguments.StoresElsewhere` | guessproj.py:150-160 | Storing one parameter's sub-values changes no entry under any other key |
| `Arguments.StoresOtherDict` | guessproj.py:153-160 | A known sub-value leaves the `unknown` entry under its key as it was, and an unknown one the `known` entry |
| `Arguments.StepTargetParam` | guessproj.py:141-160 | A `+` token in target mode changes only the slots. A bare `+name` sets `known[name] = None` and leaves `unknown` alone. A valued one stores its comma-separated sub-values |
| `Arguments.KeyIndex` | guessproj.py:151-152 | Finds the sub-value position whose key is `k`, or shows that none has it |
| `Arguments.StepSlots` | guessproj.py:141-160 | One token sets `known[k]` or `unknown[k]` exactly when it is a target parameter that writes under `k`. Every other entry is kept |
| `Arguments.UptoKnownKeys` | guessproj.py:133-171 | After n tokens, `known` holds k iff some target token among them wrote it |
| `Arguments.UptoKnownLast` | guessproj.py:133-171 | `known[k]` is what the last token that wrote it gave |
| `Arguments.UptoUnknownKeys` | guessproj.py:133-171 | After n tokens, `unknown` holds k iff some target token wrote a guess under it |
| `Arguments.UptoUnknownLast` | guessproj.py:133-171 | `unknown[k]` is `float()` of the last guess written under it |
| `Arguments.ParseArgumentsSlots` | guessproj.py:127-176 | On success, `known` and `unknown` hold exactly the keys target tokens wrote. Each holds what its last writer gave: `None` for a bare flag, the text of a known sub-value, the number of a guess |
| `Coordinates.ReplaceCommas` | guessproj.py:183 | Every `,` becomes `.` and every other character is kept |
| `Coordinates.CommaIsDecimalMark` | guessproj.py:183 | `,` and `.` are interchangeable in coordinate text |
| `Coordinates.MatchDmsSound` | guessproj.py:187-193 | A match of the DMS pattern splits the text, less a final newline, into a sign and well-formed degree, minute and second fields |
| `Coordinates.MatchDmsComplete` | guessproj.py:187-193 | Every text built from well-formed groups matches, and gives back those groups |
| `Coordinates.FieldValue` | guessproj.py:198-206 | A captured field's value lies in [0, 10^maxInt) |
| `Coordinates.MagnitudeOf` | guessproj.py:195-209 | The unsigned value is d + m/60 + s/3600 when minutes and seconds are below 60. Minutes ≥ 60 are rejected. Seconds ≥ 60 are rejected as seconds, and as the minutes error when written as the source has it |
| `Coordinates.DmsMeaning` | guessproj.py:179-212 | An accepted DMS value is sign·(d + m/60 + s/3600), with 0 ≤ d < 1000 and 0 ≤ m, s < 60 |
| `Coordinates.DmsMagnitude` | guessproj.py:187-211 | An accepted DMS value lies strictly within ±(1001 + 1/60) |
| `Coordinates.ParseOfDmsText` | guessproj.py:184-212 | Text that `float()` rejects and that is built from well-formed groups parses to the groups' signed value |
| `Coordinates.ForeignCharUnmatched` | guessproj.py:187-193 | A character other than a digit, `.`, `d`, `'` or `"` after the first position makes the text fail the pattern |
| `Coordinates.AsWrittenAgreesOnAcceptance` | guessproj.py:205-209 | The seconds check as written changes only which exception is raised, never acceptance or value, so read_points behaves the same |
| `Coordinates.SecondsCheckCounterexample` | guessproj.py:205-208 | For `0d60"` the source raises a NameError on the unassigned minutes, while the corrected parser reports the seconds |
| `Coordinates.Example150d7m30s` | test/test_functions.py:61 | `150d7'30"` parses to 150.125 |
| `Coordinates.ExampleMinus150d7m30s` | test/test_functions.py:63 | `-150d7'30"` parses to -150.125 |
| `Coordinates.ExampleMinusZero` | test/test_functions.py:64 | `-0d` parses to 0 |
| `Coordinates.ExampleMinus7m30s` | test/test_functions.py:65 | `-7'30"` parses to -0.125 |
| `Coordinates.ExampleMinus30s` | test/test_functions.py:66 | `-30"` parses to -1/120 |
| `Coordinates.ExampleMinus123c456d` | test/test_functions.py:67 | `-123,456d` parses to -123.456 |
| `Coordinates.ExamplePlus175d07p5m` | test/test_functions.py:68 | `+175d07.5'` parses to 175.125 |
| `Coordinates.ExampleMinus7c5m` | test/test_functions.py:69 | `-7,5'` parses to -0.125: the comma is the decimal mark inside a DMS field |
| `Coordinates.ExamplesWithoutFields` | test/test_functions.py:70-73 | `None` raises the type error. `''` and `'-'` are not coordinates |
| `Coordinates.ExamplesNotMatched` | test/test_functions.py:72-75 | `1d2m3s`, `--2d` and `6-1` are not coordinates |
| `Coordinates.ExampleMinutesOutOfRange` | test/test_functions.py:76-77 | `1d60'0"` is rejected for its minutes |
| `Coordinates.ExampleSecondsOutOfRange` | test/test_functions.py:78-79 | `-140d09'60.5"` is rejected. The corrected parser reports the seconds; as written, the message reports the minutes |
| `Points.ClassifyLine` | guessproj.py:220-247 | The per-line step (token loop with `break`, clamp, re-split) equals the line rule `LineRule` |
| `Points.ReadPoints` | guessproj.py:215-248 | The loop over lines yields the points of all non-skipped lines in order, or fails at the first bad line |
| `Points.LeadingCoordsIsFirstFailure` | guessproj.py:223-229 | The coordinate count is the position of the first token that does not parse |
| `Points.ClampCount` | guessproj.py:230-232 | The count is capped at 6 and 5 becomes 4; other counts below 6 are kept |
| `Points.SkipRule` | guessproj.py:220-222 | A line is skipped iff it has no tokens or its first token starts with `#` |
| `Points.BadRule` | guessproj.py:223-234 | Any other line raises iff fewer than four of its leading tokens are coordinates |
| `Points.PointRule` | guessproj.py:235-247 | A point has 2+2 coordinates for 4 or 5 leading coordinates and 3+3 for 6 or more; each value is the parsed token at its position |
| `Points.LabelRule` | guessproj.py:235-247 | The label is `''` iff nothing follows the coordinates. Otherwise it is the unsplit, trimmed rest of the line, which splits into exactly the remaining tokens |
| `Points.ReadAllRule` | guessproj.py:215-248 | Reading succeeds iff no line raises, and every point pairs 2 or 3 source coordinates with as many target ones |
| `Template.CollectParams` | guessproj.py:67-77 | The list succeeds iff every key splits into `(name, int index)`; otherwise the error names an offending key. The list is ascending and holds exactly the entries of both dictionaries |
| `Template.SplitKeyOfKey` | guessproj.py:70-75 | Splitting gives back `(name, i)` for the keys `name` and `name.i` that parse_arguments makes |
| `Template.SplitKeyName` | guessproj.py:70-75 | A split name holds no `.` |
| `Template.SortAscending` | guessproj.py:77 | The sort is a permutation of its input, ascending by `(name, index)` |
| `Template.AscendingUnique` | guessproj.py:77 | Two ascending lists with the same entries are equal, so dictionary order does not matter |
| `Template.BuildTemplate` | guessproj.py:79-102 | The template loop yields the stripped layout, `start_values` and `var_names` of the sorted list |
| `Template.UnknownCounts` | guessproj.py:93-101 | `len(start_values) == len(var_names) ==` the number of unknowns |
| `Template.UnknownAt` | guessproj.py:93-101 | The unknown with k unknowns before it gets placeholder `{k}`, and the k-th initial guess and variable name are its own |
| `Template.PlaceholdersDistinct` | guessproj.py:100-101 | No two unknowns share a placeholder |
| `Template.PlaceholdersOnto` | guessproj.py:100-101 | Every placeholder 0..n-1 belongs to an unknown |
| `Template.LayoutPrefix` | guessproj.py:82-101 | The entries are laid out in list order, each text following on the ones before |
| `Template.VarNameInjective` | guessproj.py:95-99 | Names without `.` at distinct places get distinct variable names (`name` or `name.index`) |
| `Template.VarNamesDistinct` | guessproj.py:95-99 | `var_names` has no repeated entry for an ascending list |
| `Template.TemplateTrimmed` | guessproj.py:102 | The template has no leading or trailing whitespace, and strip removed only whitespace |
| `Template.ExampleTemplate` | guessproj.py:82-102 | Known `a=1`, unknown `a.1` with guess 2 and bare flag `b` lay out as `+a=1,{0} +b`, with start values `[2]` and names `["a.1"]` |
| `Formatting.FormatPlaceholder` | guessproj.py:45 | `{k}` is replaced by the k-th argument |
| `Formatting.FormatLayout` | guessproj.py:45 | A layout with brace-free names and values formats into the parameters with each unknown's argument in its place |
| `Formatting.FormatStrip` | guessproj.py:102 | Stripping whitespace around a template does not change whether it formats, only the whitespace around the result |
| `Formatting.FormatTemplate` | guessproj.py:112 | The stripped template filled with the solution is the written-out parameter string, less the stripped whitespace |
| `Residuals.AppendResiduals` | guessproj.py:56-59 | One point appends target x and y minus transformed x and y, then source z minus transformed z when both tuples are 3-D |
| `Residuals.TargetFunction` | guessproj.py:41-60 | The loop computes the specification: the first exception, or the points' residuals laid end to end |
| `Residuals.GroupsRule` | guessproj.py:49-59 | The residuals exist iff every point has 2 or 3 source coordinates and long-enough tuples. Then each point gets one tuple of width 3 iff both sides are 3-D, else 2 |
| `Residuals.TargetFunctionRule` | guessproj.py:45-60 | target_func_template raises iff the template cannot be filled or some point does not fit |
| `Residuals.WellShapedFits` | guessproj.py:50-55 | Points as read_points makes them always fit under an arity-preserving transform |
| `Residuals.RegroupResiduals` | guessproj.py:115-123 | The regroup loop cuts `fvec` into consecutive slices of the points' widths |
| `Residuals.RegroupConcat` | guessproj.py:115-123 | Regrouping the concatenation of tuples of the right widths gives the tuples back |
| `Residuals.ConcatRegroup` | guessproj.py:115-123 | Concatenating the regrouped tuples gives back the laid-out prefix of `fvec` |
| `Residuals.ResidualsRoundTrip` | guessproj.py:114-123 | Regrouping target_func_template's vector gives, per point and in order, that point's residuals, and concatenates back to the vector |
| `Fit.FindParams` | guessproj.py:63-124 | find_params raises on a key it cannot split. Otherwise it equals `FitSpec` on the ascending entry list. `FitSpec` evaluates the objective at the initial guesses first, as leastsq does, and raises on its exception or on too few residuals |
| `Fit.StartRule` | guessproj.py:104-108 | find_params raises target_func_template's exception iff that function raises at the initial guesses. It raises leastsq's TypeError iff there are fewer residuals than unknowns. Any result implies the first evaluation succeeded |
| `Fit.EvaluatesWellShaped` | guessproj.py:41-60 | The first evaluation succeeds when the points are as read_points makes them, the transform keeps the number of coordinates, values are brace-free, and there are no more unknowns than residuals |
| `Fit.GateRule` | guessproj.py:110-111 | The result is `(None, None, None)` iff the first evaluation succeeds and the solver status is not 1, 2, 3 or 4 |
| `Fit.FoundParts` | guessproj.py:110-124 | A found fit means the solver converged, and its string, dictionary and tuples come from the solution |
| `Fit.ResultDictRule` | guessproj.py:113 | `result_dict`'s keys are the names paired with a value. With distinct names, name i maps to `x[i]` |
| `Fit.FitValues` | guessproj.py:113 | On success the k-th variable name maps to the k-th solution value |
| `Fit.FitProjString` | guessproj.py:112 | On convergence the projection string is the parameters written out with the solution in place of the unknowns |
| `Fit.FitResiduals` | guessproj.py:114-123 | On success there is one tuple per point. With a full-length `fvec` the tuples have the points' widths and concatenate back to `fvec` |
| `Fit.FitResidualsMeaning` | guessproj.py:114-123 | When `fvec` is the objective at the solution, tuple k is point k's residuals under the returned projection string |
| `Fit.FoundNonEmpty` | guessproj.py:112 | A converged fit with a parameter yields a non-empty projection string |
| `Fit.UnknownListed` | guessproj.py:69-76 | Every unknown key contributes an unknown entry to the list |
| `Output.OutputModeRule` | guessproj.py:283-294 | Projection-string-only output iff `--proj` or `--proj4` is given. Otherwise `--wkt` gives WKT, and `--esri` without `--wkt` gives ESRI WKT. The residual table is printed iff no format option is given. `--pretty` only shapes WKT |
| `Output.ExitRule` | guessproj.py:298-314 | main exits 0 iff it shows usage or prints a result. It prints a result iff there are unknowns, no help was asked for, and the projection string is non-empty |
| `Output.NotFoundMessage` | guessproj.py:310-313 | "Solution not found" is printed iff no format option is given |
| `Output.FitPrinted` | guessproj.py:298-309 | main prints the fit in the chosen mode and exits 0 when all of these hold: an unknown, no help, splittable keys, brace-free values, points as read_points makes them, a transform that keeps the number of coordinates, no more unknowns than residuals, and a converged solver |

## Left out

- File I/O is not modelled. This covers opening and decoding the points
  file (`codecs.open`), every `print_*` function, and `sys.argv`/`sys.exit`.
  `Points.ReadPoints` takes the file's lines. `Output.Encoding` only
  computes which encoding `main` would ask for.
- `to_str` is Python 2/3 byte/unicode plumbing. Strings are `seq<char>`
  throughout.
- The WKT/ESRI export through GDAL (`print_wkt`) is a foreign library. Only
  the choice of mode is modelled.
- Python's `float()` on arbitrary text, `int()` on a key's index and
  `str()` of a float are parameters (`num`, `toInt`, `show`). `float()` on
  the DMS fields is modelled concretely.
- pyproj's `Proj`/`transform` is the parameter `transform`, a total
  function. A projection string that pyproj rejects, or a point it cannot
  transform, is not modelled as an exception.
- scipy's `leastsq` is modelled only in part. Its first evaluation at the
  initial guesses is modelled, together with the TypeError for more
  unknowns than residuals. Its iterations, convergence and floating point
  are the parameter `solve`, which returns `x`, `fvec` and `ier`.
  An exception the objective raises at a later evaluation is not modelled.
  With brace-free values it cannot happen: the format and the point shapes
  do not depend on the parameters, only the transform, which is total here.
- Floating point is modelled by exact `real` arithmetic. This applies to the
  residual subtractions and the DMS sum, so rounding is not modelled.
- Only ASCII is modelled. Python 3's `\d` and `str.split()` also accept
  non-ASCII digits and whitespace. The model's digits are `0`-`9`, and its
  whitespace is ASCII whitespace and the separators U+1C-U+1F.
- Template.CollectParams: requires that no known and unknown key split to
  the same `(name, index)`. A target like `+a=1 +a=~2` makes the sort
  compare a string with a float. That raises a TypeError under Python 3,
  which the model does not cover.
- Fit.FindParams: inherits the same requirement from
  `Template.CollectParams`. The dictionaries' key order is not modelled:
  keys are taken in any order, and `Template.AscendingUnique` shows the
  sorted list does not depend on it.
- Formatting.Format: only plain `{k}` fields and doubled braces are
  modelled. Any other replacement-field syntax is treated as the error
  `str.format` raises on malformed fields. This includes auto-numbered `{}`,
  conversions, format specs and attribute access, which Python would accept.
- Output.MainOutcome: when parse_arguments, read_points or find_params
  raises, `main` ends with that exception. These are the error results of
  `Arguments.ParseArguments`, `Points.ReadPoints` and `Fit.FindParams`.
  The last includes target_func_template's exception at the initial
  guesses and leastsq's TypeError. `Outcome` covers only the runs that
  return.

## Findings

| source | as written | input that shows it | evidently intended | confidence | as-written member | corrected member |
|---|---|---|---|---|---|---|
| guessproj.py:205-208 | the seconds check raises `ValueError('Invalid value for minutes: {0}'.format(mf))` | `0d60"`: no minutes field, so `mf` was never assigned and an UnboundLocalError (a NameError) is raised instead; `-140d09'60.5"` reports "minutes: 9.0" | a ValueError about the seconds value | high (not executed) | `Coordinates.SecondsCheckCounterexample` | `Coordinates.MagnitudeOf` |

The rest of the model uses the corrected `Coordinates.ParseCoord`.
`Coordinates.AsWrittenAgreesOnAcceptance` shows that the two versions accept
the same texts with the same values. `read_points` catches every exception,
so the points it reads are unaffected.
