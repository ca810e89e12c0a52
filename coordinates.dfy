/** The coordinate-value parser of guessproj.py (parse_coord): a decimal
    number, or a degree/minute/second value such as `150d7'30"`, with `,`
    accepted as the decimal mark. Values are exact reals. Python's float()
    on a whole token is foreign and is passed in as `num`. */
module Coordinates {
  import opened Common

  /** The ways parse_coord fails. `MinutesTooLarge(v)` is the ValueError
      whose message reports the minutes value `v`; `UnboundMinutes` is the
      NameError raised when the seconds check reads a minutes variable that
      was never assigned. */
  datatype CoordError =
    | NoneValue
    | NotACoordinate
    | MinutesTooLarge(minutes: real)
    | SecondsTooLarge(seconds: real)
    | UnboundMinutes

  /** The groups of the degree/minute/second pattern: an optional sign and,
      for each of the three sections, `None` when its marker is absent and
      `Some(text)` (possibly empty) when it is present. */
  datatype Dms = Dms(sign: Option<char>, deg: Option<string>, min: Option<string>, sec: Option<string>)

  /** Python's `s.replace(',', '.')`. */
  function ReplaceCommas(s: string): (r: string)
    ensures |r| == |s|
    ensures forall i :: 0 <= i < |s| ==> r[i] == (if s[i] == ',' then '.' else s[i])
  {
    if s == [] then [] else [if s[0] == ',' then '.' else s[0]] + ReplaceCommas(s[1..])
  }

  lemma ReplaceCommasIdempotent(s: string)
    ensures ReplaceCommas(ReplaceCommas(s)) == ReplaceCommas(s)
  {
  }

  // ---------------------------------------------------------------------
  // The pattern  ^([+-])?(?:(\d{0,3}(?:\.\d*)?)?d)?(?:(\d{0,2}(?:\.\d*)?)?')?(?:(\d{0,2}(?:\.\d*)?)?")?$

  predicate NumChar(c: char) { IsDigit(c) || c == '.' }

  /** Length of the leading run of digits and dots. */
  function NumSpan(s: string): (n: nat)
    ensures n <= |s|
    ensures forall j :: 0 <= j < n ==> NumChar(s[j])
    ensures n < |s| ==> !NumChar(s[n])
  {
    if s == [] || !NumChar(s[0]) then 0 else 1 + NumSpan(s[1..])
  }

  /** `\d{0,maxInt}(?:\.\d*)?`: at most `maxInt` digits, then optionally a
      dot followed by any number of digits. */
  predicate IsNumberField(f: string, maxInt: nat) {
    match IndexOf(f, '.')
    case None => AllDigits(f) && |f| <= maxInt
    case Some(i) => AllDigits(f[..i]) && i <= maxInt && AllDigits(f[i + 1..])
  }

  /** The text a captured section stands for. */
  function SectionText(f: Option<string>, marker: char): string {
    match f
    case None => []
    case Some(t) => t + [marker]
  }

  /** One optional section `(?:(field)?marker)?` at the front of `r`:
      `None` when the text cannot match, otherwise the captured field and
      what is left. */
  function TakeSection(r: string, marker: char, maxInt: nat): Option<(Option<string>, string)> {
    var n := NumSpan(r);
    if n < |r| && r[n] == marker then
      if IsNumberField(r[..n], maxInt) then Some((Some(r[..n]), r[n + 1..])) else None
    else Some((None, r))
  }

  /** A section taken off the front is a well-formed field and its marker. */
  lemma TakeSectionSound(r: string, marker: char, maxInt: nat)
    ensures var res := TakeSection(r, marker, maxInt);
      res.Some? ==>
        r == SectionText(res.value.0, marker) + res.value.1
        && (res.value.0.Some? ==> IsNumberField(res.value.0.value, maxInt))
  {
    var n := NumSpan(r);
    if n < |r| && r[n] == marker && IsNumberField(r[..n], maxInt) {
      assert r == r[..n] + [marker] + r[n + 1..];
    }
  }

  function SectionsText(deg: Option<string>, min: Option<string>, sec: Option<string>): string {
    SectionText(deg, 'd') + (SectionText(min, '\'') + SectionText(sec, '"'))
  }

  /** The three sections in order, consuming the whole text. */
  function MatchSections(r: string): Option<(Option<string>, Option<string>, Option<string>)> {
    var d := TakeSection(r, 'd', 3);
    if d.None? then None
    else
      var m := TakeSection(d.value.1, '\'', 2);
      if m.None? then None
      else
        var sec := TakeSection(m.value.1, '"', 2);
        if sec.None? || sec.value.1 != [] then None
        else Some((d.value.0, m.value.0, sec.value.0))
  }

  /** A match of the sections splits the text into well-formed fields. */
  lemma MatchSectionsSound(r: string)
    ensures var res := MatchSections(r);
      res.Some? ==>
        r == SectionsText(res.value.0, res.value.1, res.value.2)
        && (res.value.0.Some? ==> IsNumberField(res.value.0.value, 3))
        && (res.value.1.Some? ==> IsNumberField(res.value.1.value, 2))
        && (res.value.2.Some? ==> IsNumberField(res.value.2.value, 2))
  {
    var d := TakeSection(r, 'd', 3);
    TakeSectionSound(r, 'd', 3);
    if d.Some? {
      var m := TakeSection(d.value.1, '\'', 2);
      TakeSectionSound(d.value.1, '\'', 2);
      if m.Some? {
        TakeSectionSound(m.value.1, '"', 2);
      }
    }
  }

  /** `$` also matches just before one final newline. */
  function DropFinalNewline(s: string): string {
    if s != [] && s[|s| - 1] == '\n' then s[..|s| - 1] else s
  }

  function SignText(sign: Option<char>): string {
    match sign case None => [] case Some(c) => [c]
  }

  /** `re.match` of the degree/minute/second pattern. */
  function MatchDms(ss: string): Option<Dms> {
    var body := DropFinalNewline(ss);
    var signed := body != [] && (body[0] == '+' || body[0] == '-');
    var sections := MatchSections(if signed then body[1..] else body);
    if sections.None? then None
    else
      var (deg, min, sec) := sections.value;
      Some(Dms(if signed then Some(body[0]) else None, deg, min, sec))
  }

  /** The text a set of groups stands for. */
  function DmsText(g: Dms): string {
    SignText(g.sign) + SectionsText(g.deg, g.min, g.sec)
  }

  /** Groups that the pattern can produce. */
  predicate WellFormedDms(g: Dms) {
    (g.sign.Some? ==> g.sign.value == '+' || g.sign.value == '-')
    && (g.deg.Some? ==> IsNumberField(g.deg.value, 3))
    && (g.min.Some? ==> IsNumberField(g.min.value, 2))
    && (g.sec.Some? ==> IsNumberField(g.sec.value, 2))
  }

  /** Soundness of the matcher: a match splits the text (less a final
      newline) into well-formed groups. */
  lemma MatchDmsSound(ss: string)
    ensures MatchDms(ss).Some? ==>
      WellFormedDms(MatchDms(ss).value) && DmsText(MatchDms(ss).value) == DropFinalNewline(ss)
  {
    var body := DropFinalNewline(ss);
    if body != [] && (body[0] == '+' || body[0] == '-') {
      assert body == [body[0]] + body[1..];
      MatchSectionsSound(body[1..]);
    } else {
      MatchSectionsSound(body);
    }
  }

  lemma {:induction false} NumberFieldChars(f: string, maxInt: nat)
    requires IsNumberField(f, maxInt)
    ensures forall j :: 0 <= j < |f| ==> NumChar(f[j])
  {
    match IndexOf(f, '.')
    case None =>
    case Some(i) =>
      forall j | 0 <= j < |f| ensures NumChar(f[j]) {
        if j < i { assert f[j] == f[..i][j]; }
        else if j > i { assert f[j] == f[i + 1..][j - i - 1]; }
      }
  }

  lemma {:induction false} NumSpanOfField(f: string, rest: string)
    requires forall j :: 0 <= j < |f| ==> NumChar(f[j])
    requires rest != [] && !NumChar(rest[0])
    ensures NumSpan(f + rest) == |f|
  {
    if f != [] {
      assert (f + rest)[1..] == f[1..] + rest;
      NumSpanOfField(f[1..], rest);
    }
  }

  lemma TakeSectionPresent(f: string, marker: char, maxInt: nat, rest: string)
    requires !NumChar(marker) && IsNumberField(f, maxInt)
    ensures TakeSection(f + [marker] + rest, marker, maxInt) == Some((Some(f), rest))
  {
    NumberFieldChars(f, maxInt);
    NumSpanOfField(f, [marker] + rest);
    var r := f + [marker] + rest;
    assert r == f + ([marker] + rest);
    assert r[..|f|] == f && r[|f| + 1..] == rest;
  }

  lemma TakeSectionAbsent(f: string, other: char, rest: string, marker: char, maxInt: nat)
    requires !NumChar(marker) && !NumChar(other) && marker != other
    requires forall j :: 0 <= j < |f| ==> NumChar(f[j])
    ensures TakeSection(f + [other] + rest, marker, maxInt) == Some((None, f + [other] + rest))
  {
    NumSpanOfField(f, [other] + rest);
    assert f + [other] + rest == f + ([other] + rest);
  }

  lemma MatchSectionsComplete(deg: Option<string>, min: Option<string>, sec: Option<string>)
    requires deg.Some? ==> IsNumberField(deg.value, 3)
    requires min.Some? ==> IsNumberField(min.value, 2)
    requires sec.Some? ==> IsNumberField(sec.value, 2)
    ensures MatchSections(SectionsText(deg, min, sec)) == Some((deg, min, sec))
  {
    var s3 := SectionText(sec, '"');
    var s2 := SectionText(min, '\'') + s3;
    TakeSeconds(sec);
    TakeMinutes(min, sec);
    TakeDegrees(deg, min, sec);
    assert SectionsText(deg, min, sec) == SectionText(deg, 'd') + s2;
  }

  lemma TakeSeconds(sec: Option<string>)
    requires sec.Some? ==> IsNumberField(sec.value, 2)
    ensures TakeSection(SectionText(sec, '"'), '"', 2) == Some((sec, []))
  {
    if sec.Some? {
      TakeSectionPresent(sec.value, '"', 2, []);
      assert SectionText(sec, '"') == sec.value + ['"'] + [];
    }
  }

  lemma TakeMinutes(min: Option<string>, sec: Option<string>)
    requires min.Some? ==> IsNumberField(min.value, 2)
    requires sec.Some? ==> IsNumberField(sec.value, 2)
    ensures var s3 := SectionText(sec, '"');
      TakeSection(SectionText(min, '\'') + s3, '\'', 2) == Some((min, s3))
  {
    var s3 := SectionText(sec, '"');
    if min.Some? {
      TakeSectionPresent(min.value, '\'', 2, s3);
    } else if sec.Some? {
      NumberFieldChars(sec.value, 2);
      TakeSectionAbsent(sec.value, '"', [], '\'', 2);
      assert s3 == sec.value + ['"'] + [];
      assert SectionText(min, '\'') + s3 == s3;
    }
  }

  lemma TakeDegrees(deg: Option<string>, min: Option<string>, sec: Option<string>)
    requires deg.Some? ==> IsNumberField(deg.value, 3)
    requires min.Some? ==> IsNumberField(min.value, 2)
    requires sec.Some? ==> IsNumberField(sec.value, 2)
    ensures var s2 := SectionText(min, '\'') + SectionText(sec, '"');
      TakeSection(SectionText(deg, 'd') + s2, 'd', 3) == Some((deg, s2))
  {
    var s3 := SectionText(sec, '"');
    var s2 := SectionText(min, '\'') + s3;
    if deg.Some? {
      TakeSectionPresent(deg.value, 'd', 3, s2);
      return;
    }
    assert SectionText(deg, 'd') + s2 == s2;
    if min.Some? {
      NumberFieldChars(min.value, 2);
      assert s2 == min.value + ['\''] + s3;
      TakeSectionAbsent(min.value, '\'', s3, 'd', 3);
    } else if sec.Some? {
      NumberFieldChars(sec.value, 2);
      assert s2 == s3 == sec.value + ['"'] + [];
      TakeSectionAbsent(sec.value, '"', [], 'd', 3);
    }
  }

  /** The sections never start with a sign nor end with a newline. */
  lemma SectionsTextEnds(deg: Option<string>, min: Option<string>, sec: Option<string>)
    requires deg.Some? ==> IsNumberField(deg.value, 3)
    requires min.Some? ==> IsNumberField(min.value, 2)
    requires sec.Some? ==> IsNumberField(sec.value, 2)
    ensures var t := SectionsText(deg, min, sec);
      t != [] ==> t[0] != '+' && t[0] != '-' && t[|t| - 1] != '\n'
  {
    var s3 := SectionText(sec, '"');
    var s2 := SectionText(min, '\'') + s3;
    var t := SectionText(deg, 'd') + s2;
    assert SectionsText(deg, min, sec) == t;
    if t != [] {
      if s3 != [] { assert t[|t| - 1] == '"'; }
      else if s2 != [] { assert t[|t| - 1] == '\''; }
      else { assert t[|t| - 1] == 'd'; }
      if deg.Some? { NumberFieldChars(deg.value, 3); assert deg.value == [] || t[0] == deg.value[0]; }
      else if min.Some? { NumberFieldChars(min.value, 2); assert min.value == [] || t[0] == min.value[0]; }
      else if sec.Some? { NumberFieldChars(sec.value, 2); assert sec.value == [] || t[0] == sec.value[0]; }
    }
  }

  /** Completeness of the matcher: every text built from well-formed groups
      is matched, and matched back to those same groups. */
  lemma MatchDmsComplete(g: Dms)
    requires WellFormedDms(g)
    ensures MatchDms(DmsText(g)) == Some(g)
  {
    var t := SectionsText(g.deg, g.min, g.sec);
    var text := DmsText(g);
    MatchSectionsComplete(g.deg, g.min, g.sec);
    SectionsTextEnds(g.deg, g.min, g.sec);
    if g.sign.None? {
      assert text == t;
      MatchUnsigned(t);
    } else {
      assert text == [g.sign.value] + t;
      MatchSigned(g.sign.value, t);
    }
  }

  lemma MatchUnsigned(t: string)
    requires t != [] ==> t[0] != '+' && t[0] != '-' && t[|t| - 1] != '\n'
    requires MatchSections(t).Some?
    ensures MatchDms(t) == Some(Dms(None, MatchSections(t).value.0, MatchSections(t).value.1, MatchSections(t).value.2))
  {
    assert DropFinalNewline(t) == t;
  }

  lemma MatchSigned(c: char, t: string)
    requires c == '+' || c == '-'
    requires t != [] ==> t[|t| - 1] != '\n'
    requires MatchSections(t).Some?
    ensures MatchDms([c] + t) == Some(Dms(Some(c), MatchSections(t).value.0, MatchSections(t).value.1, MatchSections(t).value.2))
  {
    var body := [c] + t;
    assert body[|body| - 1] != '\n' by {
      if t == [] { assert body == [c]; } else { assert body[|body| - 1] == t[|t| - 1]; }
    }
    assert DropFinalNewline(body) == body;
    assert body[1..] == t;
  }

  // ---------------------------------------------------------------------
  // Values of the fields and of the whole coordinate.

  function Pow10(n: nat): (p: nat)
    ensures p >= 1
  {
    if n == 0 then 1 else 10 * Pow10(n - 1)
  }

  lemma {:induction false} DigitsValueBelow(s: string)
    requires AllDigits(s)
    ensures DigitsValue(s) < Pow10(|s|)
  {
    if s != [] { DigitsValueBelow(s[..|s| - 1]); }
  }

  /** The value of the digits after a decimal point: 0.d1d2d3... */
  function FractionValue(s: string): (v: real)
    requires AllDigits(s)
    ensures 0.0 <= v < 1.0
  {
    if s == [] then 0.0 else ((s[0] as int - '0' as int) as real + FractionValue(s[1..])) / 10.0
  }

  /** Python's float() on a field the pattern captured: `None` for the
      texts it rejects (the empty field and a lone dot). */
  function FieldValue(f: string, maxInt: nat): (v: Option<real>)
    requires IsNumberField(f, maxInt)
    ensures v.Some? ==> 0.0 <= v.value < Pow10(maxInt) as real
  {
    match IndexOf(f, '.')
    case None =>
      if f == [] then None
      else
        DigitsValueBelow(f);
        Pow10Monotone(|f|, maxInt);
        Some(DigitsValue(f) as real)
    case Some(i) =>
      var ip, fp := f[..i], f[i + 1..];
      if ip == [] && fp == [] then None
      else
        DigitsValueBelow(ip);
        Pow10Monotone(i, maxInt);
        Some(DigitsValue(ip) as real + FractionValue(fp))
  }

  lemma {:induction false} Pow10Monotone(m: nat, n: nat)
    requires m <= n
    ensures Pow10(m) <= Pow10(n)
  {
    if m < n { Pow10Monotone(m, n - 1); }
  }

  /** `g[k] in ('', None)`. */
  predicate Blank(f: Option<string>) { f.None? || f.value == [] }

  /** A section's value, zero when it is absent or empty. */
  function SectionValue(f: Option<string>, maxInt: nat): Option<real>
    requires f.Some? ==> IsNumberField(f.value, maxInt)
  {
    if Blank(f) then Some(0.0) else FieldValue(f.value, maxInt)
  }

  /** The unsigned degree/minute/second evaluation of guessproj.py:195-209.
      With `asWritten` the seconds check fails as the source's does (a
      message about the minutes, or a NameError when there is no minutes
      field); without it the seconds check reports the seconds. */
  function Magnitude(deg: Option<string>, min: Option<string>, sec: Option<string>, asWritten: bool): Result<real, CoordError>
    requires deg.Some? ==> IsNumberField(deg.value, 3)
    requires min.Some? ==> IsNumberField(min.value, 2)
    requires sec.Some? ==> IsNumberField(sec.value, 2)
  {
    if Blank(deg) && Blank(min) && Blank(sec) then Err(NotACoordinate)
    else
      var d := SectionValue(deg, 3);
      if d.None? then Err(NotACoordinate)
      else
        var m := SectionValue(min, 2);
        if m.None? then Err(NotACoordinate)
        else if !Blank(min) && m.value >= 60.0 then Err(MinutesTooLarge(m.value))
        else
          var s := SectionValue(sec, 2);
          if s.None? then Err(NotACoordinate)
          else if !Blank(sec) && s.value >= 60.0 then
            if !asWritten then Err(SecondsTooLarge(s.value))
            else if Blank(min) then Err(UnboundMinutes)
            else Err(MinutesTooLarge(m.value))
          else Ok(d.value + m.value / 60.0 + s.value / 3600.0)
  }

  /** Magnitude in terms of the three section values. */
  lemma MagnitudeOf(deg: Option<string>, min: Option<string>, sec: Option<string>, d: real, m: real, x: real)
    requires deg.Some? ==> IsNumberField(deg.value, 3)
    requires min.Some? ==> IsNumberField(min.value, 2)
    requires sec.Some? ==> IsNumberField(sec.value, 2)
    requires !(Blank(deg) && Blank(min) && Blank(sec))
    requires SectionValue(deg, 3) == Some(d) && SectionValue(min, 2) == Some(m) && SectionValue(sec, 2) == Some(x)
    ensures m < 60.0 && x < 60.0 ==> Magnitude(deg, min, sec, false) == Ok(d + m / 60.0 + x / 3600.0)
    ensures m >= 60.0 ==> Magnitude(deg, min, sec, false) == Err(MinutesTooLarge(m))
    ensures m < 60.0 && x >= 60.0 ==> Magnitude(deg, min, sec, false) == Err(SecondsTooLarge(x))
    ensures m < 60.0 && x >= 60.0 && !Blank(min) ==> Magnitude(deg, min, sec, true) == Err(MinutesTooLarge(m))
  {
  }

  /** The signed value (guessproj.py:195-211). */
  function DmsValue(g: Dms, asWritten: bool): Result<real, CoordError>
    requires WellFormedDms(g)
  {
    match Magnitude(g.deg, g.min, g.sec, asWritten)
    case Err(e) => Err(e)
    case Ok(f) => Ok(if g.sign == Some('-') then -f else f)
  }

  function ParseWith(s: Option<string>, num: string -> Option<real>, asWritten: bool): Result<real, CoordError> {
    if s.None? then Err(NoneValue)
    else
      var ss := ReplaceCommas(s.value);
      if num(ss).Some? then Ok(num(ss).value)
      else match MatchDms(ss)
        case None => Err(NotACoordinate)
        case Some(g) =>
          MatchDmsSound(ss);
          DmsValue(g, asWritten)
  }

  /** parse_coord exactly as written (guessproj.py:179-212). */
  function ParseCoordAsWritten(s: Option<string>, num: string -> Option<real>): Result<real, CoordError> {
    ParseWith(s, num, true)
  }

  /** parse_coord with the seconds check reporting the seconds; the rest of
      the model uses this one. */
  function ParseCoord(s: Option<string>, num: string -> Option<real>): Result<real, CoordError> {
    ParseWith(s, num, false)
  }

  // ---------------------------------------------------------------------
  // Properties.

  /** A value in degree/minute/second form is sign * (d + m/60 + s/3600)
      with minutes and seconds each below 60 and fewer than four integer
      digits of degrees. */
  lemma DmsMeaning(s: string, num: string -> Option<real>, g: Dms)
    requires num(ReplaceCommas(s)).None? && MatchDms(ReplaceCommas(s)) == Some(g)
    requires ParseCoord(Some(s), num).Ok?
    ensures WellFormedDms(g)
    ensures SectionValue(g.deg, 3).Some? && SectionValue(g.min, 2).Some? && SectionValue(g.sec, 2).Some?
    ensures
      var d, m, x := SectionValue(g.deg, 3).value, SectionValue(g.min, 2).value, SectionValue(g.sec, 2).value;
      0.0 <= d < 1000.0 && 0.0 <= m < 60.0 && 0.0 <= x < 60.0
      && ParseCoord(Some(s), num).value == (if g.sign == Some('-') then -1.0 else 1.0) * (d + m / 60.0 + x / 3600.0)
  {
    MatchDmsSound(ReplaceCommas(s));
    assert ParseCoord(Some(s), num) == DmsValue(g, false);
    MagnitudeMeaning(g.deg, g.min, g.sec);
  }

  lemma MagnitudeMeaning(deg: Option<string>, min: Option<string>, sec: Option<string>)
    requires deg.Some? ==> IsNumberField(deg.value, 3)
    requires min.Some? ==> IsNumberField(min.value, 2)
    requires sec.Some? ==> IsNumberField(sec.value, 2)
    requires Magnitude(deg, min, sec, false).Ok?
    ensures SectionValue(deg, 3).Some? && SectionValue(min, 2).Some? && SectionValue(sec, 2).Some?
    ensures
      var d, m, x := SectionValue(deg, 3).value, SectionValue(min, 2).value, SectionValue(sec, 2).value;
      0.0 <= d < 1000.0 && 0.0 <= m < 60.0 && 0.0 <= x < 60.0
      && Magnitude(deg, min, sec, false).value == d + m / 60.0 + x / 3600.0
  {
  }

  /** A DMS-form value is strictly below 1000 + 1 + 1/60 in magnitude. */
  lemma DmsMagnitude(s: string, num: string -> Option<real>)
    requires num(ReplaceCommas(s)).None?
    requires ParseCoord(Some(s), num).Ok?
    ensures -1001.0 - 1.0 / 60.0 < ParseCoord(Some(s), num).value < 1001.0 + 1.0 / 60.0
  {
    var g := MatchDms(ReplaceCommas(s));
    assert g.Some?;
    DmsMeaning(s, num, g.value);
  }

  /** `,` and `.` are interchangeable as the decimal mark. */
  lemma CommaIsDecimalMark(s: string, num: string -> Option<real>)
    ensures ParseCoord(Some(ReplaceCommas(s)), num) == ParseCoord(Some(s), num)
  {
    ReplaceCommasIdempotent(s);
  }

  /** Any text built from well-formed groups that Python's float() rejects
      is parsed as the groups' degree/minute/second value: the sign, when it
      is `-`, negates the magnitude, and a `+` sign leaves it unchanged. */
  lemma ParseOfDmsText(g: Dms, num: string -> Option<real>)
    requires WellFormedDms(g)
    requires num(DmsText(g)).None?
    ensures ParseCoord(Some(DmsText(g)), num) == DmsValue(g, false)
  {
    ParseWithDmsText(g, num, false);
  }

  lemma ParseWithDmsText(g: Dms, num: string -> Option<real>, asWritten: bool)
    requires WellFormedDms(g)
    requires num(DmsText(g)).None?
    ensures ParseWith(Some(DmsText(g)), num, asWritten) == DmsValue(g, asWritten)
  {
    var text := DmsText(g);
    MatchDmsComplete(g);
    NoCommaInDms(g);
    assert ReplaceCommas(text) == text;
  }

  predicate NoComma(s: string) { forall i :: 0 <= i < |s| ==> s[i] != ',' }

  lemma ReplaceCommasNoComma(s: string)
    requires NoComma(s)
    ensures ReplaceCommas(s) == s
  {
  }

  lemma NoCommaSection(f: Option<string>, marker: char, maxInt: nat)
    requires f.Some? ==> IsNumberField(f.value, maxInt)
    requires marker != ','
    ensures NoComma(SectionText(f, marker))
  {
    if f.Some? { NumberFieldChars(f.value, maxInt); }
  }

  lemma NoCommaInDms(g: Dms)
    requires WellFormedDms(g)
    ensures ReplaceCommas(DmsText(g)) == DmsText(g)
  {
    NoCommaSection(g.deg, 'd', 3);
    NoCommaSection(g.min, '\'', 2);
    NoCommaSection(g.sec, '"', 2);
    var a, b, c, d := SignText(g.sign), SectionText(g.deg, 'd'), SectionText(g.min, '\''), SectionText(g.sec, '"');
    var t := DmsText(g);
    assert t == a + (b + (c + d));
    assert NoComma(c + d);
    assert NoComma(b + (c + d));
    assert NoComma(t);
    ReplaceCommasNoComma(t);
  }

  // ---------------------------------------------------------------------
  // The seconds check as written (guessproj.py:205-208).

  /** The as-written seconds check changes only which error is raised, never
      whether a coordinate is accepted nor its value. */
  lemma MagnitudeAsWrittenAgrees(deg: Option<string>, min: Option<string>, sec: Option<string>)
    requires deg.Some? ==> IsNumberField(deg.value, 3)
    requires min.Some? ==> IsNumberField(min.value, 2)
    requires sec.Some? ==> IsNumberField(sec.value, 2)
    ensures Magnitude(deg, min, sec, true).Ok? <==> Magnitude(deg, min, sec, false).Ok?
    ensures Magnitude(deg, min, sec, false).Ok? ==> Magnitude(deg, min, sec, true) == Magnitude(deg, min, sec, false)
  {
  }

  lemma AsWrittenAgreesOnAcceptance(s: Option<string>, num: string -> Option<real>)
    ensures ParseCoordAsWritten(s, num).Ok? <==> ParseCoord(s, num).Ok?
    ensures ParseCoord(s, num).Ok? ==> ParseCoordAsWritten(s, num) == ParseCoord(s, num)
  {
    if s.Some? {
      var ss := ReplaceCommas(s.value);
      if num(ss).None? {
        var g := MatchDms(ss);
        if g.Some? {
          MatchDmsSound(ss);
          DmsValueAsWrittenAgrees(g.value);
          assert ParseCoordAsWritten(s, num) == DmsValue(g.value, true);
          assert ParseCoord(s, num) == DmsValue(g.value, false);
        }
      }
    }
  }

  lemma DmsValueAsWrittenAgrees(g: Dms)
    requires WellFormedDms(g)
    ensures DmsValue(g, true).Ok? <==> DmsValue(g, false).Ok?
    ensures DmsValue(g, false).Ok? ==> DmsValue(g, true) == DmsValue(g, false)
  {
    MagnitudeAsWrittenAgrees(g.deg, g.min, g.sec);
  }

  // ---------------------------------------------------------------------
  // Field values of short literals.

  function Digit(c: char): int { c as int - '0' as int }

  lemma DigitsValueOfShort(f: string)
    requires 0 < |f| <= 3 && AllDigits(f)
    ensures |f| == 1 ==> DigitsValue(f) == Digit(f[0])
    ensures |f| == 2 ==> DigitsValue(f) == Digit(f[0]) * 10 + Digit(f[1])
    ensures |f| == 3 ==> DigitsValue(f) == Digit(f[0]) * 100 + Digit(f[1]) * 10 + Digit(f[2])
  {
    assert DigitsValue(f[..1]) == Digit(f[0]) by { assert f[..1][..0] == []; }
    if |f| >= 2 { assert f[..2][..1] == f[..1]; }
    if |f| == 3 { assert f[..3] == f; }
  }

  lemma IntegerField(f: string, maxInt: nat, v: nat)
    requires AllDigits(f) && 0 < |f| <= maxInt && DigitsValue(f) == v
    ensures IsNumberField(f, maxInt) && FieldValue(f, maxInt) == Some(v as real)
  {
    assert IndexOf(f, '.') == None;
  }

  /** A field of one to three digits is the integer they spell. */
  lemma ShortIntegerField(f: string, maxInt: nat)
    requires AllDigits(f) && 0 < |f| <= maxInt && |f| <= 3
    ensures IsNumberField(f, maxInt)
    ensures |f| == 1 ==> FieldValue(f, maxInt) == Some(Digit(f[0]) as real)
    ensures |f| == 2 ==> FieldValue(f, maxInt) == Some((Digit(f[0]) * 10 + Digit(f[1])) as real)
    ensures |f| == 3 ==> FieldValue(f, maxInt) == Some((Digit(f[0]) * 100 + Digit(f[1]) * 10 + Digit(f[2])) as real)
  {
    DigitsValueOfShort(f);
    IntegerField(f, maxInt, DigitsValue(f));
  }

  lemma DecimalField(ip: string, fp: string, maxInt: nat, v: real)
    requires AllDigits(ip) && AllDigits(fp) && |ip| <= maxInt && ip + fp != []
    requires DigitsValue(ip) as real + FractionValue(fp) == v
    ensures IsNumberField(ip + "." + fp, maxInt) && FieldValue(ip + "." + fp, maxInt) == Some(v)
  {
    DecimalParts(ip, fp);
    var f := ip + "." + fp;
    assert IsNumberField(f, maxInt);
  }

  lemma DecimalParts(ip: string, fp: string)
    requires AllDigits(ip)
    ensures var f := ip + "." + fp;
      IndexOf(f, '.') == Some(|ip|) && f[..|ip|] == ip && f[|ip| + 1..] == fp
  {
    var f := ip + "." + fp;
    assert f[..|ip|] == ip && f[|ip| + 1..] == fp;
    assert '.' !in ip by { assert IndexOf(ip, '.') == None; }
    IndexOfFirst(f, '.', |ip|);
  }

  lemma IndexOfFirst(s: string, c: char, k: nat)
    requires k < |s| && s[k] == c && c !in s[..k]
    ensures IndexOf(s, c) == Some(k)
  {
    assert c in s by { assert s[k] == c; }
  }

  /** `ip.d` with one digit after the point. */
  lemma OneDecimalField(f: string, ip: string, maxInt: nat)
    requires 0 < |f| && f == ip + "." + [f[|f| - 1]] && 0 < |ip| <= maxInt && |ip| <= 3
    requires AllDigits(ip) && IsDigit(f[|f| - 1])
    ensures IsNumberField(f, maxInt)
    ensures FieldValue(f, maxInt) == Some(DigitsValue(ip) as real + Digit(f[|f| - 1]) as real / 10.0)
  {
    var fp := [f[|f| - 1]];
    assert FractionValue(fp) == Digit(fp[0]) as real / 10.0 by { assert fp[1..] == []; }
    DecimalField(ip, fp, maxInt, DigitsValue(ip) as real + Digit(f[|f| - 1]) as real / 10.0);
  }

  // ---------------------------------------------------------------------
  // The seconds check as written, on an input.

  /** Seconds of 60 or more with no minutes field: the source raises a
      NameError (it reports an unassigned minutes variable) where a
      seconds error is meant. */
  lemma {:induction false} SecondsCheckCounterexample(s: string, num: string -> Option<real>)
    requires s == "0d60\"" && num(s).None?
    ensures ParseCoordAsWritten(Some(s), num) == Err(UnboundMinutes)
    ensures ParseCoord(Some(s), num) == Err(SecondsTooLarge(60.0))
  {
    var g := Dms(None, Some("0"), None, Some("60"));
    ShortIntegerField("0", 3);
    ShortIntegerField("60", 2);
    assert Magnitude(g.deg, g.min, g.sec, true) == Err(UnboundMinutes);
    assert Magnitude(g.deg, g.min, g.sec, false) == Err(SecondsTooLarge(60.0));
    assert DmsText(g) == s;
    ParseWithDmsText(g, num, true);
    ParseWithDmsText(g, num, false);
  }

  // ---------------------------------------------------------------------
  // The values the unit tests expect (test/test_functions.py:61-79). The
  // text is a parameter fixed by the precondition, which keeps the verifier
  // from unfolding the parser on a literal.

  lemma Value150d7m30s(g: Dms)
    requires g.deg == Some("150") && g.min == Some("7") && g.sec == Some("30")
    requires g.sign.Some? ==> g.sign.value == '+' || g.sign.value == '-'
    ensures WellFormedDms(g) && Magnitude(g.deg, g.min, g.sec, false) == Ok(150.125)
  {
    ShortIntegerField(g.deg.value, 3);
    ShortIntegerField(g.min.value, 2);
    ShortIntegerField(g.sec.value, 2);
    MagnitudeOf(g.deg, g.min, g.sec, 150.0, 7.0, 30.0);
  }

  lemma Text150d7m30s(s: string, g: Dms)
    requires s == "150d7'30\"" && g == Dms(None, Some("150"), Some("7"), Some("30"))
    ensures DmsText(g) == s
  {
  }

  lemma {:induction false} Example150d7m30s(s: string, num: string -> Option<real>)
    requires s == "150d7'30\"" && num(s).None?
    ensures ParseCoord(Some(s), num) == Ok(150.125)
  {
    var g := Dms(None, Some("150"), Some("7"), Some("30"));
    Value150d7m30s(g);
    Text150d7m30s(s, g);
    ParseOfDmsText(g, num);
  }

  lemma TextMinus150d7m30s(s: string, g: Dms)
    requires s == "-150d7'30\"" && g == Dms(Some('-'), Some("150"), Some("7"), Some("30"))
    ensures DmsText(g) == s
  {
  }

  lemma {:induction false} ExampleMinus150d7m30s(s: string, num: string -> Option<real>)
    requires s == "-150d7'30\"" && num(s).None?
    ensures ParseCoord(Some(s), num) == Ok(-150.125)
  {
    var g := Dms(Some('-'), Some("150"), Some("7"), Some("30"));
    Value150d7m30s(g);
    TextMinus150d7m30s(s, g);
    ParseOfDmsText(g, num);
  }

  lemma {:induction false} ExampleMinusZero(s: string, num: string -> Option<real>)
    requires s == "-0d" && num(s).None?
    ensures ParseCoord(Some(s), num) == Ok(0.0)
  {
    var g := Dms(Some('-'), Some("0"), None, None);
    ShortIntegerField("0", 3);
    assert DmsText(g) == s;
    ParseOfDmsText(g, num);
  }

  lemma ValueMinus30s(g: Dms)
    requires g == Dms(Some('-'), None, None, Some("30"))
    ensures WellFormedDms(g) && DmsValue(g, false) == Ok(-1.0 / 120.0)
  {
    ShortIntegerField(g.sec.value, 2);
    MagnitudeOf(g.deg, g.min, g.sec, 0.0, 0.0, 30.0);
  }

  lemma {:induction false} ExampleMinus30s(s: string, num: string -> Option<real>)
    requires s == "-30\"" && num(s).None?
    ensures ParseCoord(Some(s), num) == Ok(-1.0 / 120.0)
  {
    var g := Dms(Some('-'), None, None, Some("30"));
    ValueMinus30s(g);
    assert DmsText(g) == s;
    ParseOfDmsText(g, num);
  }

  lemma ValueMinus7m30s(g: Dms)
    requires g == Dms(Some('-'), None, Some("7"), Some("30"))
    ensures WellFormedDms(g) && DmsValue(g, false) == Ok(-0.125)
  {
    ShortIntegerField(g.min.value, 2);
    ShortIntegerField(g.sec.value, 2);
    MagnitudeOf(g.deg, g.min, g.sec, 0.0, 7.0, 30.0);
  }

  lemma {:induction false} ExampleMinus7m30s(s: string, num: string -> Option<real>)
    requires s == "-7'30\"" && num(s).None?
    ensures ParseCoord(Some(s), num) == Ok(-0.125)
  {
    var g := Dms(Some('-'), None, Some("7"), Some("30"));
    ValueMinus7m30s(g);
    assert DmsText(g) == s;
    ParseOfDmsText(g, num);
  }

  lemma Field123p456(f: string)
    requires f == "123.456"
    ensures IsNumberField(f, 3) && FieldValue(f, 3) == Some(123.456)
  {
    DigitsValueOfShort("123");
    assert FractionValue("456") == 0.456 by {
      assert "456"[1..] == "56" && "56"[1..] == "6" && "6"[1..] == "";
    }
    DecimalField("123", "456", 3, 123.456);
    assert "123" + "." + "456" == f;
  }

  lemma ValueMinus123p456d(g: Dms)
    requires g == Dms(Some('-'), Some("123.456"), None, None)
    ensures WellFormedDms(g) && DmsValue(g, false) == Ok(-123.456)
  {
    Field123p456(g.deg.value);
    MagnitudeOf(g.deg, g.min, g.sec, 123.456, 0.0, 0.0);
  }

  lemma Commas123p456d(s: string, g: Dms)
    requires s == "-123,456d" && g == Dms(Some('-'), Some("123.456"), None, None)
    ensures ReplaceCommas(s) == DmsText(g)
  {
    assert s == "-123" + [','] + "456d";
    assert ReplaceCommas(s) == "-123" + ['.'] + "456d";
  }

  lemma {:induction false} ExampleMinus123c456d(s: string, num: string -> Option<real>)
    requires s == "-123,456d" && num(ReplaceCommas(s)).None?
    ensures ParseCoord(Some(s), num) == Ok(-123.456)
  {
    var g := Dms(Some('-'), Some("123.456"), None, None);
    ValueMinus123p456d(g);
    Commas123p456d(s, g);
    ParseOfDmsText(g, num);
    CommaIsDecimalMark(s, num);
  }

  lemma ValueMinus7p5m(g: Dms)
    requires g == Dms(Some('-'), None, Some("7.5"), None)
    ensures WellFormedDms(g) && DmsValue(g, false) == Ok(-0.125)
  {
    OneDecimalField(g.min.value, "7", 2);
    MagnitudeOf(g.deg, g.min, g.sec, 0.0, 7.5, 0.0);
  }

  lemma Commas7c5m(s: string, g: Dms)
    requires s == "-7,5'" && g == Dms(Some('-'), None, Some("7.5"), None)
    ensures ReplaceCommas(s) == DmsText(g)
  {
    assert s == "-7" + [','] + "5'";
    assert ReplaceCommas(s) == "-7" + ['.'] + "5'";
  }

  /** The one unit test with a comma inside a DMS field. */
  lemma {:induction false} ExampleMinus7c5m(s: string, num: string -> Option<real>)
    requires s == "-7,5'" && num(ReplaceCommas(s)).None?
    ensures ParseCoord(Some(s), num) == Ok(-0.125)
  {
    var g := Dms(Some('-'), None, Some("7.5"), None);
    ValueMinus7p5m(g);
    Commas7c5m(s, g);
    ParseOfDmsText(g, num);
    CommaIsDecimalMark(s, num);
  }

  lemma Field07p5(f: string)
    requires f == "07.5"
    ensures IsNumberField(f, 2) && FieldValue(f, 2) == Some(7.5)
  {
    DigitsValueOfShort("07");
    OneDecimalField(f, "07", 2);
  }

  lemma ValuePlus175d07p5m(g: Dms)
    requires g == Dms(Some('+'), Some("175"), Some("07.5"), None)
    ensures WellFormedDms(g) && DmsValue(g, false) == Ok(175.125)
  {
    ShortIntegerField(g.deg.value, 3);
    Field07p5(g.min.value);
    MagnitudeOf(g.deg, g.min, g.sec, 175.0, 7.5, 0.0);
  }

  lemma TextPlus175d07p5m(s: string, g: Dms)
    requires s == "+175d07.5'" && g == Dms(Some('+'), Some("175"), Some("07.5"), None)
    ensures DmsText(g) == s
  {
  }

  lemma {:induction false} ExamplePlus175d07p5m(s: string, num: string -> Option<real>)
    requires s == "+175d07.5'" && num(s).None?
    ensures ParseCoord(Some(s), num) == Ok(175.125)
  {
    var g := Dms(Some('+'), Some("175"), Some("07.5"), None);
    ValuePlus175d07p5m(g);
    TextPlus175d07p5m(s, g);
    ParseOfDmsText(g, num);
  }

  lemma {:induction false} ExampleMinutesOutOfRange(s: string, num: string -> Option<real>)
    requires s == "1d60'0\"" && num(s).None?
    ensures ParseCoord(Some(s), num) == Err(MinutesTooLarge(60.0))
  {
    var g := Dms(None, Some("1"), Some("60"), Some("0"));
    ShortIntegerField("1", 3);
    ShortIntegerField("60", 2);
    ShortIntegerField("0", 2);
    assert DmsText(g) == s;
    ParseOfDmsText(g, num);
  }

  lemma Field60p5(f: string)
    requires f == "60.5"
    ensures IsNumberField(f, 2) && FieldValue(f, 2) == Some(60.5)
  {
    DigitsValueOfShort("60");
    OneDecimalField(f, "60", 2);
  }

  lemma ValueMinus140d09m60p5s(g: Dms)
    requires g == Dms(Some('-'), Some("140"), Some("09"), Some("60.5"))
    ensures WellFormedDms(g)
    ensures DmsValue(g, false) == Err(SecondsTooLarge(60.5))
    ensures DmsValue(g, true) == Err(MinutesTooLarge(9.0))
  {
    ShortIntegerField(g.deg.value, 3);
    ShortIntegerField(g.min.value, 2);
    Field60p5(g.sec.value);
    MagnitudeOf(g.deg, g.min, g.sec, 140.0, 9.0, 60.5);
  }

  lemma TextMinus140d09m60p5s(s: string, g: Dms)
    requires s == "-140d09'60.5\"" && g == Dms(Some('-'), Some("140"), Some("09"), Some("60.5"))
    ensures DmsText(g) == s
  {
  }

  /** Seconds of 60.5 with 9 minutes: rejected either way, but as written
      the message reports the minutes. */
  lemma {:induction false} ExampleSecondsOutOfRange(s: string, num: string -> Option<real>)
    requires s == "-140d09'60.5\"" && num(s).None?
    ensures ParseCoord(Some(s), num) == Err(SecondsTooLarge(60.5))
    ensures ParseCoordAsWritten(Some(s), num) == Err(MinutesTooLarge(9.0))
  {
    var g := Dms(Some('-'), Some("140"), Some("09"), Some("60.5"));
    ValueMinus140d09m60p5s(g);
    TextMinus140d09m60p5s(s, g);
    ParseWithDmsText(g, num, false);
    ParseWithDmsText(g, num, true);
  }

  /** No value, the empty text and a lone sign. */
  lemma {:induction false} ExamplesWithoutFields(empty: string, minus: string, num: string -> Option<real>)
    requires empty == "" && minus == "-" && num(empty).None? && num(minus).None?
    ensures ParseCoord(None, num) == Err(NoneValue)
    ensures ParseCoord(Some(empty), num) == Err(NotACoordinate)
    ensures ParseCoord(Some(minus), num) == Err(NotACoordinate)
  {
    var e, m := Dms(None, None, None, None), Dms(Some('-'), None, None, None);
    assert DmsText(e) == empty && DmsText(m) == minus;
    ParseOfDmsText(e, num);
    ParseOfDmsText(m, num);
  }

  /** The pattern admits only digits, dots and the three markers, after an
      optional leading sign. */
  predicate DmsChar(c: char) { NumChar(c) || c == 'd' || c == '\'' || c == '"' }

  lemma SectionChars(f: Option<string>, marker: char, maxInt: nat)
    requires f.Some? ==> IsNumberField(f.value, maxInt)
    requires DmsChar(marker)
    ensures forall i :: 0 <= i < |SectionText(f, marker)| ==> DmsChar(SectionText(f, marker)[i])
  {
    if f.Some? { NumberFieldChars(f.value, maxInt); }
  }

  lemma SectionsChars(deg: Option<string>, min: Option<string>, sec: Option<string>)
    requires deg.Some? ==> IsNumberField(deg.value, 3)
    requires min.Some? ==> IsNumberField(min.value, 2)
    requires sec.Some? ==> IsNumberField(sec.value, 2)
    ensures forall i :: 0 <= i < |SectionsText(deg, min, sec)| ==> DmsChar(SectionsText(deg, min, sec)[i])
  {
    SectionChars(deg, 'd', 3);
    SectionChars(min, '\'', 2);
    SectionChars(sec, '"', 2);
    var b, c, d := SectionText(deg, 'd'), SectionText(min, '\''), SectionText(sec, '"');
    assert forall i :: 0 <= i < |c + d| ==> DmsChar((c + d)[i]);
  }

  lemma MatchDmsAlphabet(ss: string)
    requires MatchDms(ss).Some?
    ensures forall i :: 0 < i < |DropFinalNewline(ss)| ==> DmsChar(DropFinalNewline(ss)[i])
  {
    MatchDmsSound(ss);
    var g := MatchDms(ss).value;
    var t := SectionsText(g.deg, g.min, g.sec);
    SectionsChars(g.deg, g.min, g.sec);
    var body := DropFinalNewline(ss);
    assert body == SignText(g.sign) + t;
    forall i | 0 < i < |body| ensures DmsChar(body[i]) {
      if g.sign.Some? { assert body[i] == t[i - 1]; } else { assert body[i] == t[i]; }
    }
  }

  /** A text with a foreign character after its first is not a coordinate. */
  lemma ForeignCharUnmatched(ss: string, k: nat)
    requires 0 < k < |DropFinalNewline(ss)| && !DmsChar(DropFinalNewline(ss)[k])
    ensures MatchDms(ss) == None
  {
    if MatchDms(ss).Some? {
      MatchDmsAlphabet(ss);
      assert false;
    }
  }

  lemma Unmatched(s: string, k: nat, num: string -> Option<real>)
    requires NoComma(s) && num(s).None?
    requires 0 < k < |s| - 1 && !DmsChar(s[k])
    ensures ParseCoord(Some(s), num) == Err(NotACoordinate)
  {
    ReplaceCommasNoComma(s);
    assert DropFinalNewline(s)[k] == s[k];
    ForeignCharUnmatched(s, k);
  }

  lemma {:induction false} ExamplesNotMatched(a: string, b: string, c: string, num: string -> Option<real>)
    requires a == "1d2m3s" && b == "--2d" && c == "6-1"
    requires num(a).None? && num(b).None? && num(c).None?
    ensures ParseCoord(Some(a), num) == Err(NotACoordinate)
    ensures ParseCoord(Some(b), num) == Err(NotACoordinate)
    ensures ParseCoord(Some(c), num) == Err(NotACoordinate)
  {
    assert NoComma(a) && NoComma(b) && NoComma(c);
    Unmatched(a, 3, num);
    Unmatched(b, 1, num);
    Unmatched(c, 1, num);
  }
}
