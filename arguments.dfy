/** The command-line reader of guessproj.py (parse_arguments): options
    starting with `-`, source projection tokens up to `+to`, then target
    parameter tokens whose values are either known text or unknown initial
    guesses, and one input file name. */
module Arguments {
  import opened Common

  /** An option's value: `True` for a bare `-flag`, the text after the
      first `=` otherwise. */
  datatype OptionValue = Flag | Text(text: string)

  /** The exceptions parse_arguments raises. A failing `float()` on an
      initial guess raises too; its argument is kept. */
  datatype ArgError =
    | InvalidParameter(arg: string)
    | MultipleInputFiles
    | UnexpectedToken(arg: string)
    | NotANumber(text: string)

  /** The known and the unknown target parameters: a known one maps to its
      literal text, or to `None` for a bare flag; an unknown one to its
      initial guess. */
  datatype Slots = Slots(known: map<string, Option<string>>, unknown: map<string, real>)

  /** What parse_arguments returns. */
  datatype Args = Args(
    src: string,
    known: map<string, Option<string>>,
    unknown: map<string, real>,
    options: map<string, OptionValue>,
    filename: Option<string>)

  /** The local variables of parse_arguments between two tokens. */
  datatype State = State(
    src: seq<string>,
    slots: Slots,
    options: map<string, OptionValue>,
    filename: Option<string>,
    target: bool)

  const DefaultSource := "+proj=longlat +ellps=WGS84 +datum=WGS84 +no_defs"

  const Initial := State([], Slots(map[], map[]), map[], None, false)

  // ---------------------------------------------------------------------
  // Options.

  /** `arg.split('=', 1)`: the key and value of an option token. */
  function OptionEntry(arg: string): (string, OptionValue) {
    match IndexOf(arg, '=')
    case None => (arg, Flag)
    case Some(i) => (arg[..i], Text(arg[i + 1..]))
  }

  /** An option token is split at its first `=`: without one it is a flag
      under its own text; with one, key, `=` and value make up the token and
      the key holds no `=`. */
  lemma OptionEntrySplit(arg: string)
    ensures var e := OptionEntry(arg);
      (e.1.Flag? <==> '=' !in arg)
      && (e.1.Flag? ==> e.0 == arg)
      && (e.1.Text? ==> arg == e.0 + "=" + e.1.text && '=' !in e.0)
  {
    match IndexOf(arg, '=')
    case None =>
    case Some(i) =>
      assert arg == arg[..i] + "=" + arg[i + 1..];
  }

  // ---------------------------------------------------------------------
  // The parameter pattern `^\+([0-9a-zA-Z_]+)([=~].*)?$`.

  predicate NameChar(c: char) {
    '0' <= c <= '9' || 'a' <= c <= 'z' || 'A' <= c <= 'Z' || c == '_'
  }

  /** Length of the leading run of name characters. */
  function NameLength(s: string): (n: nat)
    ensures n <= |s|
  {
    if s == [] || !NameChar(s[0]) then 0 else 1 + NameLength(s[1..])
  }

  lemma {:induction false} NameLengthRun(s: string)
    ensures forall j :: 0 <= j < NameLength(s) ==> NameChar(s[j])
    ensures NameLength(s) < |s| ==> !NameChar(s[NameLength(s)])
  {
    if s != [] && NameChar(s[0]) {
      NameLengthRun(s[1..]);
      assert forall j :: 0 < j < NameLength(s) ==> s[j] == s[1..][j - 1];
    }
  }

  /** Python's `re.match` of the parameter pattern, returning its two
      groups. */
  function ParamMatch(arg: string): Option<(string, Option<string>)> {
    if arg == [] || arg[0] != '+' then None
    else
      var n := NameLength(arg[1..]);
      if n == 0 then None
      else match ValueGroup(arg[1 + n..])
        case None => None
        case Some(v) => Some((arg[1..1 + n], v))
  }

  /** What follows the name: `([=~].*)?$`, where `.` stops at a newline and
      `$` also matches just before a final newline. `None` when it does not
      match, `Some(None)` when the optional group is absent. */
  function ValueGroup(rest: string): Option<Option<string>> {
    var body := if rest != [] && rest[|rest| - 1] == '\n' then rest[..|rest| - 1] else rest;
    if body == [] then Some(None)
    else if (body[0] == '=' || body[0] == '~') && '\n' !in body then Some(Some(body))
    else None
  }

  /** The optional group as a text: empty when absent. */
  function GroupText(value: Option<string>): string {
    if value.Some? then value.value else []
  }

  predicate ValueShape(value: Option<string>) {
    value.Some? ==> value.value != [] && (value.value[0] == '=' || value.value[0] == '~') && '\n' !in value.value
  }

  /** The pattern read declaratively: a `+`, a non-empty name, an optional
      value starting with `=` or `~` and holding no newline, and at most one
      final newline. */
  predicate ParamShape(arg: string, name: string, value: Option<string>) {
    name != [] && (forall j :: 0 <= j < |name| ==> NameChar(name[j]))
    && ValueShape(value)
    && (arg == "+" + name + GroupText(value) || arg == "+" + name + GroupText(value) + "\n")
  }

  lemma ParamMatchSound(arg: string)
    requires ParamMatch(arg).Some?
    ensures ParamShape(arg, ParamMatch(arg).value.0, ParamMatch(arg).value.1)
  {
    var n := NameLength(arg[1..]);
    var name, rest := arg[1..1 + n], arg[1 + n..];
    var v := ValueGroup(rest).value;
    assert ParamMatch(arg) == Some((name, v));
    NameLengthRun(arg[1..]);
    forall j | 0 <= j < |name| ensures NameChar(name[j]) {
      assert name[j] == arg[1..][j];
    }
    assert arg == "+" + name + rest;
    ValueGroupSound(rest);
    ShapeOfParts(arg, name, rest, v);
  }

  lemma ShapeOfParts(arg: string, name: string, rest: string, v: Option<string>)
    requires arg == "+" + name + rest
    requires name != [] && forall j :: 0 <= j < |name| ==> NameChar(name[j])
    requires ValueShape(v) && (rest == GroupText(v) || rest == GroupText(v) + "\n")
    ensures ParamShape(arg, name, v)
  {
    if rest != GroupText(v) {
      assert arg == "+" + name + GroupText(v) + "\n";
    }
  }

  lemma ValueGroupSound(rest: string)
    requires ValueGroup(rest).Some?
    ensures var v := ValueGroup(rest).value;
      ValueShape(v) && (rest == GroupText(v) || rest == GroupText(v) + "\n")
  {
    if rest != [] && rest[|rest| - 1] == '\n' {
      assert rest == rest[..|rest| - 1] + "\n";
    }
  }

  lemma ValueGroupComplete(value: Option<string>, rest: string)
    requires ValueShape(value)
    requires rest == GroupText(value) || rest == GroupText(value) + "\n"
    ensures ValueGroup(rest) == Some(value)
  {
    var tail := GroupText(value);
    if rest == tail + "\n" {
      assert rest[..|rest| - 1] == tail;
    } else if tail != [] {
      assert tail[|tail| - 1] != '\n' by { assert tail[|tail| - 1] in tail; }
    }
  }

  lemma ParamMatchComplete(arg: string, name: string, value: Option<string>)
    requires ParamShape(arg, name, value)
    ensures ParamMatch(arg) == Some((name, value))
  {
    var tail := GroupText(value);
    var after := if arg == "+" + name + tail then tail else tail + "\n";
    assert arg == "+" + name + after;
    assert after != [] ==> after[0] == '=' || after[0] == '~' || after[0] == '\n';
    ParamParts(arg, name, after);
    ValueGroupComplete(value, after);
  }

  /** A `+`, then a run of name characters, then anything that does not
      start with a name character: the run is what NameLength measures. */
  lemma ParamParts(arg: string, name: string, after: string)
    requires arg == "+" + name + after
    requires forall j :: 0 <= j < |name| ==> NameChar(name[j])
    requires after != [] ==> !NameChar(after[0])
    ensures NameLength(arg[1..]) == |name|
    ensures arg[1..1 + |name|] == name && arg[1 + |name|..] == after
  {
    assert arg[1..] == name + after;
    NameRun(arg[1..], name);
  }

  /** A name followed by something that does not start with a name
      character is the whole leading run. */
  lemma {:induction false} NameRun(s: string, name: string)
    requires |name| <= |s| && s[..|name|] == name
    requires forall j :: 0 <= j < |name| ==> NameChar(name[j])
    requires |name| < |s| ==> !NameChar(s[|name|])
    ensures NameLength(s) == |name|
  {
    if name != [] {
      NameRun(s[1..], name[1..]);
    }
  }

  // ---------------------------------------------------------------------
  // Target values.

  /** The key of the i-th sub-value of parameter `name`: `name`, then
      `name.1`, `name.2`, .... */
  function Key(name: string, i: nat): string {
    if i == 0 then name else name + "." + NatToString(i)
  }

  lemma KeyInjective(name: string, i: nat, j: nat)
    ensures Key(name, i) == Key(name, j) ==> i == j
  {
    if Key(name, i) == Key(name, j) && i != 0 && j != 0 {
      var si, sj := NatToString(i), NatToString(j);
      assert Key(name, i)[|name| + 1..] == si;
      assert Key(name, j)[|name| + 1..] == sj;
      NatToStringInjective(i, j);
    }
  }

  /** How one sub-value is read: `~v` and `=~v` are unknowns with initial
      guess `float(v)`, `=v` is the known text `v`, any other text is known
      as it stands. */
  datatype SubValue = KnownText(value: string) | UnknownText(guess: string)

  function Classify(sv: string): SubValue {
    if StartsWithChar(sv, '~') then UnknownText(sv[1..])
    else if StartsWithPair(sv, '=', '~') then UnknownText(sv[2..])
    else if StartsWithChar(sv, '=') then KnownText(sv[1..])
    else KnownText(sv)
  }

  /** The prefix decides: `~` and `=~` make an unknown and `=` a known
      value, each with its prefix stripped; no prefix keeps the text. */
  lemma ClassifyPrefix(sv: string)
    ensures var k := Classify(sv);
      (k.UnknownText? <==> StartsWithChar(sv, '~') || StartsWithPair(sv, '=', '~'))
      && (k.UnknownText? ==> sv == "~" + k.guess || sv == "=~" + k.guess)
      && (k.KnownText? && StartsWithChar(sv, '=') ==> sv == "=" + k.value)
      && (k.KnownText? && !StartsWithChar(sv, '=') ==> sv == k.value)
  {
    if StartsWithChar(sv, '~') {
      assert sv == "~" + sv[1..];
    } else if StartsWithPair(sv, '=', '~') {
      assert sv == "=~" + sv[2..];
    } else if StartsWithChar(sv, '=') {
      assert sv == "=" + sv[1..];
    }
  }

  /** Storing one sub-value under `key`. */
  function Store(s: Slots, key: string, sv: string, num: string -> Option<real>): Result<Slots, ArgError> {
    match Classify(sv)
    case KnownText(v) => Ok(s.(known := s.known[key := Some(v)]))
    case UnknownText(t) =>
      match num(t)
      case None => Err(NotANumber(t))
      case Some(x) => Ok(s.(unknown := s.unknown[key := x]))
  }

  /** The sub-values `subs[..n]` of parameter `name`, stored in order. */
  function Stores(s: Slots, name: string, subs: seq<string>, n: nat, num: string -> Option<real>): Result<Slots, ArgError>
    requires n <= |subs|
  {
    if n == 0 then Ok(s)
    else match Stores(s, name, subs, n - 1, num)
      case Err(e) => Err(e)
      case Ok(s1) => Store(s1, Key(name, n - 1), subs[n - 1], num)
  }

  /** Whether every unknown among the sub-values has a readable guess. */
  predicate GuessesReadable(subs: seq<string>, num: string -> Option<real>) {
    forall i :: 0 <= i < |subs| ==> Classify(subs[i]).UnknownText? ==> num(Classify(subs[i]).guess).Some?
  }

  /** Storing the sub-values of one parameter succeeds exactly when every
      guess is readable. */
  lemma {:induction false} StoresOk(s: Slots, name: string, subs: seq<string>, n: nat, num: string -> Option<real>)
    requires n <= |subs|
    ensures Stores(s, name, subs, n, num).Ok? <==> GuessesReadable(subs[..n], num)
  {
    if n > 0 {
      StoresOk(s, name, subs, n - 1, num);
      assert forall i :: 0 <= i < n - 1 ==> subs[..n][i] == subs[..n - 1][i];
      assert subs[..n][n - 1] == subs[n - 1];
    }
  }

  /** Sub-value `sv` sits under `key` in the dictionary its prefix selects. */
  predicate SlotStored(r: Slots, key: string, sv: string, num: string -> Option<real>) {
    match Classify(sv)
    case KnownText(v) => key in r.known && r.known[key] == Some(v)
    case UnknownText(t) => key in r.unknown && Some(r.unknown[key]) == num(t)
  }

  /** Two slot tables agree on `key`, in both dictionaries. */
  predicate SameAt(a: Slots, b: Slots, key: string) {
    (key in a.known <==> key in b.known) && (key in a.known ==> a.known[key] == b.known[key])
    && (key in a.unknown <==> key in b.unknown) && (key in a.unknown ==> a.unknown[key] == b.unknown[key])
  }

  /** After storing, sub-value i sits under `Key(name, i)`: the keys of one
      parameter are all different, so no later sub-value overwrites it. */
  lemma {:induction false} StoresSlots(s: Slots, name: string, subs: seq<string>, n: nat, num: string -> Option<real>)
    requires n <= |subs|
    requires Stores(s, name, subs, n, num).Ok?
    ensures forall i :: 0 <= i < n ==> SlotStored(Stores(s, name, subs, n, num).value, Key(name, i), subs[i], num)
  {
    if n > 0 {
      StoresSlots(s, name, subs, n - 1, num);
      var r1 := Stores(s, name, subs, n - 1, num).value;
      var r := Stores(s, name, subs, n, num).value;
      forall i | 0 <= i < n - 1 ensures SlotStored(r, Key(name, i), subs[i], num) {
        KeyInjective(name, i, n - 1);
        assert SameAt(r1, r, Key(name, i));
        assert SlotStored(r1, Key(name, i), subs[i], num);
      }
    }
  }

  /** Storing the sub-values of one parameter changes no entry under any
      other key. */
  lemma {:induction false} StoresElsewhere(s: Slots, name: string, subs: seq<string>, n: nat, num: string -> Option<real>)
    requires n <= |subs|
    requires Stores(s, name, subs, n, num).Ok?
    ensures forall key :: (forall i :: 0 <= i < n ==> key != Key(name, i)) ==> SameAt(s, Stores(s, name, subs, n, num).value, key)
  {
    if n > 0 {
      StoresElsewhere(s, name, subs, n - 1, num);
      var r1 := Stores(s, name, subs, n - 1, num).value;
      var r := Stores(s, name, subs, n, num).value;
      forall key | forall i :: 0 <= i < n ==> key != Key(name, i)
        ensures SameAt(s, r, key)
      {
        assert key != Key(name, n - 1);
        assert SameAt(s, r1, key);
        assert SameAt(r1, r, key);
      }
    }
  }

  /** Sub-value `sv` leaves the dictionary it does not go to unchanged
      under `key`. */
  predicate OtherSame(a: Slots, b: Slots, key: string, sv: string) {
    if Classify(sv).KnownText? then
      (key in a.unknown <==> key in b.unknown) && (key in a.unknown ==> a.unknown[key] == b.unknown[key])
    else
      (key in a.known <==> key in b.known) && (key in a.known ==> a.known[key] == b.known[key])
  }

  /** A known sub-value leaves the unknown entry under its key as it was,
      and an unknown one the known entry. */
  lemma {:induction false} StoresOtherDict(s: Slots, name: string, subs: seq<string>, n: nat, num: string -> Option<real>)
    requires n <= |subs|
    requires Stores(s, name, subs, n, num).Ok?
    ensures forall i :: 0 <= i < n ==> OtherSame(s, Stores(s, name, subs, n, num).value, Key(name, i), subs[i])
  {
    if n > 0 {
      StoresOtherDict(s, name, subs, n - 1, num);
      StoresElsewhere(s, name, subs, n - 1, num);
      var r1 := Stores(s, name, subs, n - 1, num).value;
      var r := Stores(s, name, subs, n, num).value;
      forall i | 0 <= i < n ensures OtherSame(s, r, Key(name, i), subs[i]) {
        if i < n - 1 {
          KeyInjective(name, i, n - 1);
          assert SameAt(r1, r, Key(name, i));
        } else {
          forall j | 0 <= j < n - 1 ensures Key(name, n - 1) != Key(name, j) {
            KeyInjective(name, n - 1, j);
          }
          assert SameAt(s, r1, Key(name, n - 1));
        }
      }
    }
  }

  // ---------------------------------------------------------------------
  // The token loop.

  /** Python's truth value of the file name: `None` and `''` are false. */
  predicate Truthy(f: Option<string>) {
    f.Some? && f.value != []
  }

  /** One token of `argv[1:]` (guessproj.py:133-166). */
  function Step(st: State, arg: string, num: string -> Option<real>): Result<State, ArgError> {
    if StartsWithChar(arg, '-') then
      var e := OptionEntry(arg);
      Ok(st.(options := st.options[e.0 := e.1]))
    else if st.target then
      if StartsWithChar(arg, '+') then
        match ParamMatch(arg)
        case None => Err(InvalidParameter(arg))
        case Some((name, None)) => Ok(st.(slots := st.slots.(known := st.slots.known[name := None])))
        case Some((name, Some(pvalue))) =>
          var subs := SplitOn(pvalue, ',');
          match Stores(st.slots, name, subs, |subs|, num)
          case Err(e) => Err(e)
          case Ok(s) => Ok(st.(slots := s))
      else if Truthy(st.filename) then Err(MultipleInputFiles)
      else Ok(st.(filename := Some(arg)))
    else if arg == "+to" then Ok(st.(target := true))
    else if StartsWithChar(arg, '+') then Ok(st.(src := st.src + [arg]))
    else Err(UnexpectedToken(arg))
  }

  /** A token step, as a function of the state before the token. */
  type StepFn = (State, string) -> Result<State, ArgError>

  function StepWith(num: string -> Option<real>): StepFn {
    (st: State, arg: string) => Step(st, arg, num)
  }

  /** The state after the first `n` tokens, or the first exception. */
  function Upto(step: StepFn, args: seq<string>, n: nat): Result<State, ArgError>
    requires n <= |args|
  {
    if n == 0 then Ok(Initial)
    else match Upto(step, args, n - 1)
      case Err(e) => Err(e)
      case Ok(st) => step(st, args[n - 1])
  }

  function Finish(st: State): Args {
    Args(if st.src != [] then Join(" ", st.src) else DefaultSource,
         st.slots.known, st.slots.unknown, st.options, st.filename)
  }

  /** `argv[1:]`. */
  function Tail(argv: seq<string>): seq<string> {
    if argv == [] then [] else argv[1..]
  }

  /** parse_arguments (guessproj.py:127-176). */
  function ParseArgumentsSpec(argv: seq<string>, num: string -> Option<real>): Result<Args, ArgError> {
    var args := Tail(argv);
    match Upto(StepWith(num), args, |args|)
    case Err(e) => Err(e)
    case Ok(st) => Ok(Finish(st))
  }

  lemma {:induction false} UptoErrSticks(step: StepFn, args: seq<string>, i: nat, n: nat)
    requires i <= n <= |args|
    requires Upto(step, args, i).Err?
    ensures Upto(step, args, n) == Upto(step, args, i)
    decreases n
  {
    if n > i {
      UptoErrSticks(step, args, i, n - 1);
    }
  }

  lemma {:induction false} StoresErrSticks(s: Slots, name: string, subs: seq<string>, i: nat, n: nat, num: string -> Option<real>)
    requires i <= n <= |subs|
    requires Stores(s, name, subs, i, num).Err?
    ensures Stores(s, name, subs, n, num) == Stores(s, name, subs, i, num)
    decreases n
  {
    if n > i {
      StoresErrSticks(s, name, subs, i, n - 1, num);
    }
  }

  /** The sub-value loop of parse_arguments (guessproj.py:151-160). */
  method StoreSubvalues(s: Slots, name: string, subs: seq<string>, num: string -> Option<real>)
    returns (r: Result<Slots, ArgError>)
    ensures r == Stores(s, name, subs, |subs|, num)
  {
    var known, unknown := s.known, s.unknown;
    var i := 0;
    while i < |subs|
      invariant 0 <= i <= |subs|
      invariant Stores(s, name, subs, i, num) == Ok(Slots(known, unknown))
    {
      var sv := subs[i];
      var key := if i == 0 then name else name + "." + NatToString(i);
      if StartsWithChar(sv, '~') {
        var x := num(sv[1..]);
        if x.None? {
          StoresErrSticks(s, name, subs, i + 1, |subs|, num);
          return Err(NotANumber(sv[1..]));
        }
        unknown := unknown[key := x.value];
      } else if StartsWithPair(sv, '=', '~') {
        var x := num(sv[2..]);
        if x.None? {
          StoresErrSticks(s, name, subs, i + 1, |subs|, num);
          return Err(NotANumber(sv[2..]));
        }
        unknown := unknown[key := x.value];
      } else if StartsWithChar(sv, '=') {
        known := known[key := Some(sv[1..])];
      } else {
        known := known[key := Some(sv)];
      }
      i := i + 1;
    }
    r := Ok(Slots(known, unknown));
  }

  /** The body of parse_arguments' token loop, on the state so far. */
  method ApplyToken(st: State, arg: string, num: string -> Option<real>) returns (r: Result<State, ArgError>)
    ensures r == Step(st, arg, num)
  {
    if StartsWithChar(arg, '-') {
      var e := OptionEntry(arg);
      return Ok(st.(options := st.options[e.0 := e.1]));
    } else if st.target {
      if StartsWithChar(arg, '+') {
        var m := ParamMatch(arg);
        if m.None? {
          return Err(InvalidParameter(arg));
        }
        var (name, pvalue) := m.value;
        if pvalue.None? {
          return Ok(st.(slots := st.slots.(known := st.slots.known[name := None])));
        }
        var subs := SplitOn(pvalue.value, ',');
        var stored := StoreSubvalues(st.slots, name, subs, num);
        assert subs[..|subs|] == subs;
        if stored.Err? {
          return Err(stored.error);
        }
        return Ok(st.(slots := stored.value));
      } else {
        if st.filename.Some? && st.filename.value != [] {
          return Err(MultipleInputFiles);
        }
        return Ok(st.(filename := Some(arg)));
      }
    } else if arg == "+to" {
      return Ok(st.(target := true));
    } else if StartsWithChar(arg, '+') {
      return Ok(st.(src := st.src + [arg]));
    } else {
      return Err(UnexpectedToken(arg));
    }
  }

  /** parse_arguments as the source runs it. */
  method ParseArguments(argv: seq<string>, num: string -> Option<real>) returns (r: Result<Args, ArgError>)
    ensures r == ParseArgumentsSpec(argv, num)
  {
    var args := if argv == [] then [] else argv[1..];
    ghost var step := StepWith(num);
    var st := Initial;
    var i := 0;
    while i < |args|
      invariant 0 <= i <= |args|
      invariant Upto(step, args, i) == Ok(st)
    {
      var next := ApplyToken(st, args[i], num);
      UptoNext(step, args, i);
      if next.Err? {
        UptoErrSticks(step, args, i + 1, |args|);
        return Err(next.error);
      }
      st := next.value;
      i := i + 1;
    }
    r := Ok(Finish(st));
  }

  // ---------------------------------------------------------------------
  // What the token loop computes, stated by position in argv[1:].

  /** Whether token j comes after the first `+to`, that is, in target mode. */
  predicate InTarget(args: seq<string>, j: nat)
    requires j <= |args|
  {
    "+to" in args[..j]
  }

  /** Token i names the input file: it is in target mode and starts with
      neither `-` nor `+`. */
  predicate IsFileToken(args: seq<string>, i: nat)
    requires i < |args|
  {
    !StartsWithChar(args[i], '-') && !StartsWithChar(args[i], '+') && InTarget(args, i)
  }

  /** Token j is an option with key `k`. */
  predicate OptionAt(args: seq<string>, j: nat, k: string)
    requires j < |args|
  {
    StartsWithChar(args[j], '-') && OptionEntry(args[j]).0 == k
  }

  /** The tokens before the first `+to`. */
  function Before(ts: seq<string>): seq<string> {
    if ts == [] || ts[0] == "+to" then [] else [ts[0]] + Before(ts[1..])
  }

  /** The tokens that start with `+`, in order. */
  function PlusTokens(ts: seq<string>): seq<string> {
    if ts == [] then [] else (if StartsWithChar(ts[0], '+') then [ts[0]] else []) + PlusTokens(ts[1..])
  }

  lemma {:induction false} BeforeAppend(ts: seq<string>, t: string)
    ensures "+to" in ts ==> Before(ts + [t]) == Before(ts)
    ensures "+to" !in ts ==> Before(ts + [t]) == Before(ts) + (if t == "+to" then [] else [t])
  {
    if ts == [] {
      assert [t][1..] == [];
    } else {
      assert (ts + [t])[1..] == ts[1..] + [t];
      BeforeAppend(ts[1..], t);
      if ts[0] != "+to" {
        assert "+to" in ts ==> "+to" in ts[1..];
        assert "+to" !in ts ==> "+to" !in ts[1..];
      }
    }
  }

  lemma {:induction false} PlusTokensAppend(ts: seq<string>, t: string)
    ensures PlusTokens(ts + [t]) == PlusTokens(ts) + (if StartsWithChar(t, '+') then [t] else [])
  {
    if ts == [] {
      assert [t][1..] == [];
    } else {
      assert (ts + [t])[1..] == ts[1..] + [t];
      PlusTokensAppend(ts[1..], t);
    }
  }

  /** A target parameter token is accepted when it matches the pattern and
      every unknown guess among its sub-values is a number. */
  predicate ParamAccepted(arg: string, num: string -> Option<real>) {
    match ParamMatch(arg)
    case None => false
    case Some((_, None)) => true
    case Some((_, Some(pvalue))) => GuessesReadable(SplitOn(pvalue, ','), num)
  }

  function ParamOk(num: string -> Option<real>): string -> bool {
    (arg: string) => ParamAccepted(arg, num)
  }

  /** Whether one token gets through, given the mode and the file name so
      far: options always; before `+to`, only `+to` itself and `+` tokens;
      after it, parameters that `paramOk` accepts, or a file name when the
      file name so far is false. */
  predicate TokenOk(target: bool, filename: Option<string>, t: string, paramOk: string -> bool) {
    if StartsWithChar(t, '-') then true
    else if target then (if StartsWithChar(t, '+') then paramOk(t) else !Truthy(filename))
    else t == "+to" || StartsWithChar(t, '+')
  }

  /** What one token does to the mode: `+to` switches to target mode and
      nothing switches back. */
  predicate TargetRule(st: State, t: string, r: State) {
    r.target == (st.target || t == "+to")
  }

  /** What one token does to the source list: only a `+` token other than
      `+to` in source mode is appended. */
  predicate SourceRule(st: State, t: string, r: State) {
    r.src == (if !st.target && t != "+to" && StartsWithChar(t, '+') then st.src + [t] else st.src)
  }

  /** What one token does to the file name: a file token replaces it. */
  predicate FileRule(st: State, t: string, r: State) {
    r.filename == (if st.target && !StartsWithChar(t, '-') && !StartsWithChar(t, '+') then Some(t) else st.filename)
  }

  /** What one token does to the options: an option token sets its key. */
  predicate OptionsRule(st: State, t: string, r: State) {
    r.options == (if StartsWithChar(t, '-') then st.options[OptionEntry(t).0 := OptionEntry(t).1] else st.options)
  }

  /** The laws of a token step on which the whole-run properties rest, one
      per part of the state. */
  ghost predicate OkLaw(step: StepFn, paramOk: string -> bool) {
    forall st: State, t: string :: step(st, t).Ok? <==> TokenOk(st.target, st.filename, t, paramOk)
  }

  ghost predicate TargetLaw(step: StepFn) {
    forall st: State, t: string :: step(st, t).Ok? ==> TargetRule(st, t, step(st, t).value)
  }

  ghost predicate SourceLaw(step: StepFn) {
    forall st: State, t: string :: step(st, t).Ok? ==> SourceRule(st, t, step(st, t).value)
  }

  ghost predicate FileLaw(step: StepFn) {
    forall st: State, t: string :: step(st, t).Ok? ==> FileRule(st, t, step(st, t).value)
  }

  ghost predicate OptionsLaw(step: StepFn) {
    forall st: State, t: string :: step(st, t).Ok? ==> OptionsRule(st, t, step(st, t).value)
  }

  lemma StepParam(st: State, arg: string, num: string -> Option<real>)
    requires st.target && StartsWithChar(arg, '+')
    ensures Step(st, arg, num).Ok? <==> ParamAccepted(arg, num)
  {
    match ParamMatch(arg)
    case None =>
    case Some((name, None)) =>
    case Some((name, Some(pvalue))) =>
      var subs := SplitOn(pvalue, ',');
      StoresOk(st.slots, name, subs, |subs|, num);
      assert subs[..|subs|] == subs;
  }

  /** parse_arguments' step fails exactly on the tokens TokenOk refuses. */
  lemma StepWithOk(num: string -> Option<real>)
    ensures OkLaw(StepWith(num), ParamOk(num))
  {
    forall st: State, t: string
      ensures StepWith(num)(st, t).Ok? <==> TokenOk(st.target, st.filename, t, ParamOk(num))
    {
      if st.target && StartsWithChar(t, '+') && !StartsWithChar(t, '-') {
        StepParam(st, t, num);
      }
    }
  }

  /** parse_arguments' step obeys the rules for the mode, the source list,
      the file name and the options. */
  lemma StepWithRules(num: string -> Option<real>)
    ensures TargetLaw(StepWith(num)) && SourceLaw(StepWith(num)) && FileLaw(StepWith(num)) && OptionsLaw(StepWith(num))
  {
    forall st: State, t: string | StepWith(num)(st, t).Ok?
      ensures StepRules(st, t, StepWith(num)(st, t).value)
    {
      StepKeepsRules(st, t, num);
    }
  }

  predicate StepRules(st: State, t: string, r: State) {
    TargetRule(st, t, r) && SourceRule(st, t, r) && FileRule(st, t, r) && OptionsRule(st, t, r)
  }

  lemma StepKeepsRules(st: State, t: string, num: string -> Option<real>)
    requires Step(st, t, num).Ok?
    ensures StepRules(st, t, Step(st, t, num).value)
  {
  }

  /** A `+` token in target mode changes only the target slots: a bare
      `+name` sets `known[name]` to `None` and leaves `unknown` alone, and
      a valued one stores its comma-separated sub-values. */
  lemma StepTargetParam(st: State, arg: string, num: string -> Option<real>)
    requires st.target && StartsWithChar(arg, '+') && Step(st, arg, num).Ok?
    ensures var r := Step(st, arg, num).value;
      ParamMatch(arg).Some?
      && r.src == st.src && r.options == st.options && r.filename == st.filename && r.target
      && (ParamMatch(arg).value.1.None? ==>
            r.slots.known == st.slots.known[ParamMatch(arg).value.0 := None] && r.slots.unknown == st.slots.unknown)
      && (ParamMatch(arg).value.1.Some? ==>
            var subs := SplitOn(ParamMatch(arg).value.1.value, ',');
            Stores(st.slots, ParamMatch(arg).value.0, subs, |subs|, num) == Ok(r.slots))
  {
  }

  /** The sub-value index `i < n` whose key is `k`, if there is one. */
  function KeyIndex(name: string, k: string, n: nat): (r: Option<nat>)
    ensures r.Some? ==> r.value < n && Key(name, r.value) == k
    ensures r.None? ==> forall i :: 0 <= i < n ==> Key(name, i) != k
  {
    if n == 0 then None
    else if Key(name, n - 1) == k then Some(n - 1)
    else KeyIndex(name, k, n - 1)
  }

  /** What parameter token `t` makes `known[k]`, if it writes it. */
  function KnownWrite(t: string, k: string): Option<Option<string>> {
    match ParamMatch(t)
    case None => None
    case Some((name, None)) => if k == name then Some(None) else None
    case Some((name, Some(pvalue))) =>
      var subs := SplitOn(pvalue, ',');
      match KeyIndex(name, k, |subs|)
      case None => None
      case Some(i) => if Classify(subs[i]).KnownText? then Some(Some(Classify(subs[i]).value)) else None
  }

  /** The guess text parameter token `t` stores under `unknown[k]`, if it
      writes it. */
  function UnknownWrite(t: string, k: string): Option<string> {
    match ParamMatch(t)
    case None => None
    case Some((_, None)) => None
    case Some((name, Some(pvalue))) =>
      var subs := SplitOn(pvalue, ',');
      match KeyIndex(name, k, |subs|)
      case None => None
      case Some(i) => if Classify(subs[i]).UnknownText? then Some(Classify(subs[i]).guess) else None
  }

  /** What one token does to `known[k]`: a target parameter token that
      writes it sets it, every other token leaves it as it was. */
  predicate KnownRule(st: State, t: string, r: State, k: string) {
    var w := if st.target && StartsWithChar(t, '+') then KnownWrite(t, k) else None;
    if w.Some? then k in r.slots.known && r.slots.known[k] == w.value
    else (k in r.slots.known <==> k in st.slots.known) && (k in st.slots.known ==> r.slots.known[k] == st.slots.known[k])
  }

  /** What one token does to `unknown[k]`. */
  predicate UnknownRule(st: State, t: string, r: State, k: string, num: string -> Option<real>) {
    var w := if st.target && StartsWithChar(t, '+') then UnknownWrite(t, k) else None;
    if w.Some? then k in r.slots.unknown && Some(r.slots.unknown[k]) == num(w.value)
    else (k in r.slots.unknown <==> k in st.slots.unknown) && (k in st.slots.unknown ==> r.slots.unknown[k] == st.slots.unknown[k])
  }

  ghost predicate KnownLaw(step: StepFn) {
    forall st: State, t: string, k: string :: step(st, t).Ok? ==> KnownRule(st, t, step(st, t).value, k)
  }

  ghost predicate UnknownLaw(step: StepFn, num: string -> Option<real>) {
    forall st: State, t: string, k: string :: step(st, t).Ok? ==> UnknownRule(st, t, step(st, t).value, k, num)
  }

  lemma StepSlots(st: State, t: string, k: string, num: string -> Option<real>)
    requires Step(st, t, num).Ok?
    ensures KnownRule(st, t, Step(st, t, num).value, k) && UnknownRule(st, t, Step(st, t, num).value, k, num)
  {
    if st.target && StartsWithChar(t, '+') {
      var r := Step(st, t, num).value;
      StepTargetParam(st, t, num);
      var name := ParamMatch(t).value.0;
      if ParamMatch(t).value.1.Some? {
        var subs := SplitOn(ParamMatch(t).value.1.value, ',');
        StoresSlots(st.slots, name, subs, |subs|, num);
        StoresElsewhere(st.slots, name, subs, |subs|, num);
        StoresOtherDict(st.slots, name, subs, |subs|, num);
        match KeyIndex(name, k, |subs|)
        case None =>
          assert SameAt(st.slots, r.slots, k);
        case Some(i) =>
          assert SlotStored(r.slots, Key(name, i), subs[i], num);
          assert OtherSame(st.slots, r.slots, Key(name, i), subs[i]);
      }
    }
  }

  /** parse_arguments' step obeys the rules for the target slots. */
  lemma StepWithSlots(num: string -> Option<real>)
    ensures KnownLaw(StepWith(num)) && UnknownLaw(StepWith(num), num)
  {
    forall st: State, t: string, k: string | StepWith(num)(st, t).Ok?
      ensures KnownRule(st, t, StepWith(num)(st, t).value, k) && UnknownRule(st, t, StepWith(num)(st, t).value, k, num)
    {
      StepSlots(st, t, k, num);
    }
  }

  lemma PrefixSnoc(args: seq<string>, n: nat)
    requires 0 < n <= |args|
    ensures args[..n] == args[..n - 1] + [args[n - 1]]
  {
  }

  lemma UptoNext(step: StepFn, args: seq<string>, m: nat)
    requires m < |args| && Upto(step, args, m).Ok?
    ensures Upto(step, args, m + 1) == step(Upto(step, args, m).value, args[m])
  {
  }

  /** Target mode starts right after the first `+to`. */
  lemma {:induction false} UptoTarget(step: StepFn, args: seq<string>, n: nat)
    requires TargetLaw(step)
    requires n <= |args| && Upto(step, args, n).Ok?
    ensures Upto(step, args, n).value.target == InTarget(args, n)
  {
    if n > 0 {
      UptoOkPrefix(step, args, n - 1, n);
      UptoNext(step, args, n - 1);
      UptoTarget(step, args, n - 1);
      PrefixSnoc(args, n);
    }
  }

  lemma {:induction false} UptoOkPrefix(step: StepFn, args: seq<string>, i: nat, n: nat)
    requires i <= n <= |args| && Upto(step, args, n).Ok?
    ensures Upto(step, args, i).Ok?
  {
    if Upto(step, args, i).Err? {
      UptoErrSticks(step, args, i, n);
    }
  }

  /** The source list holds the `+` tokens before the first `+to`. */
  lemma {:induction false} UptoSource(step: StepFn, args: seq<string>, n: nat)
    requires TargetLaw(step) && SourceLaw(step)
    requires n <= |args| && Upto(step, args, n).Ok?
    ensures Upto(step, args, n).value.src == PlusTokens(Before(args[..n]))
  {
    if n > 0 {
      var m := n - 1;
      UptoOkPrefix(step, args, m, n);
      UptoSource(step, args, m);
      UptoTarget(step, args, m);
      SourceRuleAt(step, args, m);
      SourceStepAt(Upto(step, args, m).value, args[m], Upto(step, args, n).value, args, m);
    }
  }

  lemma SourceRuleAt(step: StepFn, args: seq<string>, m: nat)
    requires SourceLaw(step) && m < |args| && Upto(step, args, m).Ok? && Upto(step, args, m + 1).Ok?
    ensures SourceRule(Upto(step, args, m).value, args[m], Upto(step, args, m + 1).value)
  {
    UptoNext(step, args, m);
  }

  lemma SourceStepAt(st: State, t: string, r: State, args: seq<string>, m: nat)
    requires m < |args| && t == args[m] && SourceRule(st, t, r)
    requires st.target == InTarget(args, m) && st.src == PlusTokens(Before(args[..m]))
    ensures r.src == PlusTokens(Before(args[..m + 1]))
  {
    SourceStep(st, t, args[..m], r);
    PrefixSnoc(args, m + 1);
  }

  /** One token keeps the source list equal to the `+` tokens before `+to`. */
  lemma SourceStep(st: State, t: string, ts: seq<string>, r: State)
    requires SourceRule(st, t, r)
    requires st.target == ("+to" in ts) && st.src == PlusTokens(Before(ts))
    ensures r.src == PlusTokens(Before(ts + [t]))
  {
    BeforeAppend(ts, t);
    if st.target || t == "+to" {
      assert Before(ts + [t]) == Before(ts);
    } else {
      assert Before(ts + [t]) == Before(ts) + [t];
      PlusTokensAppend(Before(ts), t);
    }
  }

  /** No file token among the first `n`. */
  predicate NoFileToken(args: seq<string>, n: nat)
    requires n <= |args|
  {
    forall i :: 0 <= i < n ==> !IsFileToken(args, i)
  }

  /** Token j is the last file token among the first `n`. */
  predicate LastFileToken(args: seq<string>, n: nat, j: nat)
    requires n <= |args|
  {
    j < n && IsFileToken(args, j) && forall i :: j < i < n ==> !IsFileToken(args, i)
  }

  /** The file name is `None` until the first file token and then the last
      file token seen. */
  lemma {:induction false} UptoFile(step: StepFn, args: seq<string>, n: nat)
    requires TargetLaw(step) && FileLaw(step)
    requires n <= |args| && Upto(step, args, n).Ok?
    ensures var f := Upto(step, args, n).value.filename;
      (f.None? <==> NoFileToken(args, n))
      && (f.Some? ==> exists j: nat :: LastFileToken(args, n, j) && f.value == args[j])
  {
    if n > 0 {
      var m := n - 1;
      UptoOkPrefix(step, args, m, n);
      UptoNext(step, args, m);
      UptoFile(step, args, m);
      UptoTarget(step, args, m);
      var st := Upto(step, args, m).value;
      var f := Upto(step, args, n).value.filename;
      if IsFileToken(args, m) {
        assert LastFileToken(args, n, m);
        assert !NoFileToken(args, n);
      } else {
        assert f == st.filename;
        if NoFileToken(args, m) {
          forall i | 0 <= i < n ensures !IsFileToken(args, i) {
            if i < m {
              assert !IsFileToken(args, i);
            }
          }
        }
        assert NoFileToken(args, n) <==> NoFileToken(args, m);
        if f.Some? {
          var j: nat :| LastFileToken(args, m, j) && st.filename.value == args[j];
          assert LastFileToken(args, n, j);
        }
      }
    }
  }

  /** The options hold exactly the keys given by option tokens, in either
      mode. */
  lemma {:induction false} UptoOptionKeys(step: StepFn, args: seq<string>, n: nat)
    requires OptionsLaw(step)
    requires n <= |args| && Upto(step, args, n).Ok?
    ensures forall k :: k in Upto(step, args, n).value.options <==> exists j :: 0 <= j < n && OptionAt(args, j, k)
  {
    if n > 0 {
      var m := n - 1;
      UptoOkPrefix(step, args, m, n);
      UptoNext(step, args, m);
      UptoOptionKeys(step, args, m);
      var st := Upto(step, args, m).value;
      var opts := Upto(step, args, n).value.options;
      assert OptionsRule(st, args[m], Upto(step, args, n).value);
      forall k ensures k in opts <==> exists j :: 0 <= j < n && OptionAt(args, j, k) {
        if OptionAt(args, m, k) {
          assert k in opts;
        } else {
          assert k in opts <==> k in st.options;
          assert (exists j :: 0 <= j < n && OptionAt(args, j, k)) ==> exists j :: 0 <= j < m && OptionAt(args, j, k);
        }
      }
    }
  }

  /** A key's value comes from its last option token: later options
      override earlier ones. */
  lemma {:induction false} UptoOptionLast(step: StepFn, args: seq<string>, n: nat, j: nat, k: string)
    requires OptionsLaw(step)
    requires n <= |args| && Upto(step, args, n).Ok?
    requires j < n && OptionAt(args, j, k) && forall i :: j < i < n ==> !OptionAt(args, i, k)
    ensures k in Upto(step, args, n).value.options
    ensures Upto(step, args, n).value.options[k] == OptionEntry(args[j]).1
  {
    var m := n - 1;
    UptoOkPrefix(step, args, m, n);
    UptoNext(step, args, m);
    assert OptionsRule(Upto(step, args, m).value, args[m], Upto(step, args, n).value);
    if j < m {
      UptoOptionLast(step, args, m, j, k);
      assert !OptionAt(args, m, k);
    }
  }

  /** What token j writes under `known[k]`, if anything. */
  function KnownAt(args: seq<string>, j: nat, k: string): Option<Option<string>>
    requires j < |args|
  {
    if InTarget(args, j) && StartsWithChar(args[j], '+') then KnownWrite(args[j], k) else None
  }

  /** The guess text token j writes under `unknown[k]`, if any. */
  function UnknownAt(args: seq<string>, j: nat, k: string): Option<string>
    requires j < |args|
  {
    if InTarget(args, j) && StartsWithChar(args[j], '+') then UnknownWrite(args[j], k) else None
  }

  /** Token m's effect on `known[k]`, stated by position. */
  lemma KnownStepAt(step: StepFn, args: seq<string>, m: nat, k: string)
    requires TargetLaw(step) && KnownLaw(step)
    requires m < |args| && Upto(step, args, m + 1).Ok?
    ensures Upto(step, args, m).Ok?
    ensures var st, r, w := Upto(step, args, m).value.slots.known, Upto(step, args, m + 1).value.slots.known, KnownAt(args, m, k);
      (w.Some? ==> k in r && r[k] == w.value)
      && (w.None? ==> (k in r <==> k in st) && (k in st ==> r[k] == st[k]))
  {
    UptoOkPrefix(step, args, m, m + 1);
    UptoNext(step, args, m);
    UptoTarget(step, args, m);
    assert KnownRule(Upto(step, args, m).value, args[m], Upto(step, args, m + 1).value, k);
  }

  /** Token m's effect on `unknown[k]`, stated by position. */
  lemma UnknownStepAt(step: StepFn, num: string -> Option<real>, args: seq<string>, m: nat, k: string)
    requires TargetLaw(step) && UnknownLaw(step, num)
    requires m < |args| && Upto(step, args, m + 1).Ok?
    ensures Upto(step, args, m).Ok?
    ensures var st, r, w := Upto(step, args, m).value.slots.unknown, Upto(step, args, m + 1).value.slots.unknown, UnknownAt(args, m, k);
      (w.Some? ==> k in r && Some(r[k]) == num(w.value))
      && (w.None? ==> (k in r <==> k in st) && (k in st ==> r[k] == st[k]))
  {
    UptoOkPrefix(step, args, m, m + 1);
    UptoNext(step, args, m);
    UptoTarget(step, args, m);
    assert UnknownRule(Upto(step, args, m).value, args[m], Upto(step, args, m + 1).value, k, num);
  }

  /** `known` holds key k exactly when a target token wrote it. */
  lemma {:induction false} UptoKnownKeys(step: StepFn, args: seq<string>, n: nat, k: string)
    requires TargetLaw(step) && KnownLaw(step)
    requires n <= |args| && Upto(step, args, n).Ok?
    ensures k in Upto(step, args, n).value.slots.known <==> exists j :: 0 <= j < n && KnownAt(args, j, k).Some?
  {
    if n > 0 {
      KnownStepAt(step, args, n - 1, k);
      UptoKnownKeys(step, args, n - 1, k);
      if KnownAt(args, n - 1, k).None? {
        assert (exists j :: 0 <= j < n && KnownAt(args, j, k).Some?) ==> exists j :: 0 <= j < n - 1 && KnownAt(args, j, k).Some?;
      }
    }
  }

  /** The last target token writing `known[k]` decides its value. */
  lemma {:induction false} UptoKnownLast(step: StepFn, args: seq<string>, n: nat, j: nat, k: string)
    requires TargetLaw(step) && KnownLaw(step)
    requires n <= |args| && Upto(step, args, n).Ok?
    requires j < n && KnownAt(args, j, k).Some? && forall i :: j < i < n ==> KnownAt(args, i, k).None?
    ensures k in Upto(step, args, n).value.slots.known
    ensures Upto(step, args, n).value.slots.known[k] == KnownAt(args, j, k).value
  {
    KnownStepAt(step, args, n - 1, k);
    if j < n - 1 {
      UptoKnownLast(step, args, n - 1, j, k);
    }
  }

  /** `unknown` holds key k exactly when a target token wrote a guess under
      it. */
  lemma {:induction false} UptoUnknownKeys(step: StepFn, num: string -> Option<real>, args: seq<string>, n: nat, k: string)
    requires TargetLaw(step) && UnknownLaw(step, num)
    requires n <= |args| && Upto(step, args, n).Ok?
    ensures k in Upto(step, args, n).value.slots.unknown <==> exists j :: 0 <= j < n && UnknownAt(args, j, k).Some?
  {
    if n > 0 {
      UnknownStepAt(step, num, args, n - 1, k);
      UptoUnknownKeys(step, num, args, n - 1, k);
      if UnknownAt(args, n - 1, k).None? {
        assert (exists j :: 0 <= j < n && UnknownAt(args, j, k).Some?) ==> exists j :: 0 <= j < n - 1 && UnknownAt(args, j, k).Some?;
      }
    }
  }

  /** The last guess written under `unknown[k]` decides its value. */
  lemma {:induction false} UptoUnknownLast(step: StepFn, num: string -> Option<real>, args: seq<string>, n: nat, j: nat, k: string)
    requires TargetLaw(step) && UnknownLaw(step, num)
    requires n <= |args| && Upto(step, args, n).Ok?
    requires j < n && UnknownAt(args, j, k).Some? && forall i :: j < i < n ==> UnknownAt(args, i, k).None?
    ensures k in Upto(step, args, n).value.slots.unknown
    ensures Some(Upto(step, args, n).value.slots.unknown[k]) == num(UnknownAt(args, j, k).value)
  {
    UnknownStepAt(step, num, args, n - 1, k);
    if j < n - 1 {
      UptoUnknownLast(step, num, args, n - 1, j, k);
    }
  }

  /** Whether parse_arguments gets past token j. */
  predicate Accepted(args: seq<string>, j: nat, paramOk: string -> bool)
    requires j < |args|
  {
    var t := args[j];
    if StartsWithChar(t, '-') then true
    else if InTarget(args, j) then
      if StartsWithChar(t, '+') then paramOk(t)
      else forall i :: 0 <= i < j && IsFileToken(args, i) ==> args[i] == []
    else t == "+to" || StartsWithChar(t, '+')
  }

  /** The tokens parse_arguments gets through without an exception are
      exactly the accepted ones; an empty file name counts as none. */
  lemma {:induction false} AcceptRule(step: StepFn, paramOk: string -> bool, args: seq<string>, n: nat)
    requires OkLaw(step, paramOk) && TargetLaw(step) && FileLaw(step)
    requires n <= |args|
    ensures Upto(step, args, n).Ok? <==> forall j :: 0 <= j < n ==> Accepted(args, j, paramOk)
  {
    if n > 0 {
      var m := n - 1;
      AcceptRule(step, paramOk, args, m);
      if Upto(step, args, m).Ok? {
        var st, t := Upto(step, args, m).value, args[m];
        UptoNext(step, args, m);
        UptoTarget(step, args, m);
        assert step(st, t).Ok? <==> TokenOk(st.target, st.filename, t, paramOk);
        if IsFileToken(args, m) {
          FileAccepted(step, paramOk, args, m);
        }
        assert TokenOk(st.target, st.filename, t, paramOk) <==> Accepted(args, m, paramOk);
      } else {
        assert Upto(step, args, n).Err?;
      }
    }
  }

  /** A file token passes exactly when the file name so far is false. */
  lemma FileAccepted(step: StepFn, paramOk: string -> bool, args: seq<string>, m: nat)
    requires TargetLaw(step) && FileLaw(step)
    requires m < |args| && Upto(step, args, m).Ok?
    requires forall j :: 0 <= j < m ==> Accepted(args, j, paramOk)
    ensures Truthy(Upto(step, args, m).value.filename) <==> exists i :: 0 <= i < m && IsFileToken(args, i) && args[i] != []
  {
    UptoFile(step, args, m);
    var f := Upto(step, args, m).value.filename;
    if f.Some? {
      var j: nat :| LastFileToken(args, m, j) && f.value == args[j];
      if args[j] == [] {
        forall i | 0 <= i < m && IsFileToken(args, i) ensures args[i] == [] {
          if i < j {
            assert Accepted(args, j, paramOk);
          }
        }
      }
    }
  }

  /** parse_arguments succeeds exactly when every token is accepted; then
      the source is the `+` tokens before `+to` joined by single spaces, or
      the WGS84 default when there are none, and the file name is the last
      file token, `None` when there is none. */
  lemma ParseArgumentsRule(argv: seq<string>, num: string -> Option<real>)
    ensures var args := Tail(argv);
      ParseArgumentsSpec(argv, num).Ok? <==> forall j :: 0 <= j < |args| ==> Accepted(args, j, ParamOk(num))
    ensures var args, r := Tail(argv), ParseArgumentsSpec(argv, num);
      r.Ok? ==>
        var ps := PlusTokens(Before(args));
        r.value.src == (if ps != [] then Join(" ", ps) else DefaultSource)
        && (r.value.filename.None? <==> NoFileToken(args, |args|))
        && (r.value.filename.Some? ==> exists j: nat :: LastFileToken(args, |args|, j) && r.value.filename.value == args[j])
  {
    var args := Tail(argv);
    StepWithOk(num);
    StepWithRules(num);
    AcceptRule(StepWith(num), ParamOk(num), args, |args|);
    if Upto(StepWith(num), args, |args|).Ok? {
      UptoSource(StepWith(num), args, |args|);
      UptoFile(StepWith(num), args, |args|);
      assert args[..|args|] == args;
    }
  }

  /** On success each option key maps to the value of its last option token,
      and only keys given by option tokens are present. */
  lemma ParseArgumentsOptions(argv: seq<string>, num: string -> Option<real>, k: string)
    requires ParseArgumentsSpec(argv, num).Ok?
    ensures var args, opts := Tail(argv), ParseArgumentsSpec(argv, num).value.options;
      (k in opts <==> exists j :: 0 <= j < |args| && OptionAt(args, j, k))
      && forall j :: 0 <= j < |args| && OptionAt(args, j, k) && (forall i :: j < i < |args| ==> !OptionAt(args, i, k)) ==>
           k in opts && opts[k] == OptionEntry(args[j]).1
  {
    var args := Tail(argv);
    StepWithRules(num);
    UptoOptionKeys(StepWith(num), args, |args|);
    forall j | 0 <= j < |args| && OptionAt(args, j, k) && (forall i :: j < i < |args| ==> !OptionAt(args, i, k)) {
      UptoOptionLast(StepWith(num), args, |args|, j, k);
    }
  }

  /** On success `known` and `unknown` hold exactly the keys that target
      parameter tokens wrote into them, each with what the last token
      writing it gave: a bare `+name` gives `known[name] = None`, and a
      sub-value its text or, for a guess, its number. */
  lemma ParseArgumentsSlots(argv: seq<string>, num: string -> Option<real>, k: string)
    requires ParseArgumentsSpec(argv, num).Ok?
    ensures var args, r := Tail(argv), ParseArgumentsSpec(argv, num).value;
      (k in r.known <==> exists j :: 0 <= j < |args| && KnownAt(args, j, k).Some?)
      && (forall j :: 0 <= j < |args| && KnownAt(args, j, k).Some? && (forall i :: j < i < |args| ==> KnownAt(args, i, k).None?) ==>
            k in r.known && r.known[k] == KnownAt(args, j, k).value)
      && (k in r.unknown <==> exists j :: 0 <= j < |args| && UnknownAt(args, j, k).Some?)
      && (forall j :: 0 <= j < |args| && UnknownAt(args, j, k).Some? && (forall i :: j < i < |args| ==> UnknownAt(args, i, k).None?) ==>
            k in r.unknown && Some(r.unknown[k]) == num(UnknownAt(args, j, k).value))
  {
    var args := Tail(argv);
    StepWithRules(num);
    StepWithSlots(num);
    UptoKnownKeys(StepWith(num), args, |args|, k);
    UptoUnknownKeys(StepWith(num), num, args, |args|, k);
    forall j | 0 <= j < |args| && KnownAt(args, j, k).Some? && (forall i :: j < i < |args| ==> KnownAt(args, i, k).None?) {
      UptoKnownLast(StepWith(num), args, |args|, j, k);
    }
    forall j | 0 <= j < |args| && UnknownAt(args, j, k).Some? && (forall i :: j < i < |args| ==> UnknownAt(args, i, k).None?) {
      UptoUnknownLast(StepWith(num), num, args, |args|, j, k);
    }
  }
}
