/** Python's `str.format(*args)` on the templates find_params lays out: a
    field `{k}` is replaced by the k-th argument, `{{` and `}}` stand for
    single braces, and every other text is copied. The arguments arrive
    already turned into text (Python's str() of a float is passed in by the
    callers). */
module Formatting {
  import opened Common
  import opened Template

  /** Length of the leading run of decimal digits. */
  function DigitRun(s: string): (n: nat)
    ensures n <= |s| && AllDigits(s[..n])
    ensures n < |s| ==> !IsDigit(s[n])
  {
    if s == [] || !IsDigit(s[0]) then 0
    else
      var n := 1 + DigitRun(s[1..]);
      assert s[..n] == [s[0]] + s[1..][..n - 1];
      n
  }

  /** `t.format(*args)`; `None` where Python raises (an unmatched brace, a
      field that is not a plain index, an index past the arguments). */
  function Format(t: string, args: seq<string>): Option<string>
    decreases |t|
  {
    if t == [] then Some([])
    else if t[0] == '{' then
      if |t| >= 2 && t[1] == '{' then Prepend("{", Format(t[2..], args))
      else
        var n := DigitRun(t[1..]);
        if n == 0 || 1 + n >= |t| || t[1 + n] != '}' then None
        else
          var k := DigitsValue(t[1..][..n]);
          if k >= |args| then None else Prepend(args[k], Format(t[2 + n..], args))
    else if t[0] == '}' then
      if |t| >= 2 && t[1] == '}' then Prepend("}", Format(t[2..], args)) else None
    else Prepend([t[0]], Format(t[1..], args))
  }

  /** Text with no braces. */
  predicate Literal(s: string) {
    '{' !in s && '}' !in s
  }

  function Append(r: Option<string>, w: string): Option<string> {
    match r
    case None => None
    case Some(t) => Some(t + w)
  }

  /** An unknown's field of the filled string: the argument whose
      placeholder it carries. */
  function Field(p: Param, k: nat, args: seq<string>): string
    requires p.slot.Unknown? ==> k < |args|
  {
    if p.slot.Unknown? then args[k] else ""
  }

  /** The string the template of the first `n` entries stands for once its
      k-th field is `args[k]`. */
  function Filled(ps: seq<Param>, n: nat, args: seq<string>): string
    requires n <= |ps| && CountUnknown(ps, n) <= |args|
  {
    if n == 0 then []
    else Filled(ps, n - 1, args) + Render(ps[n - 1], Field(ps[n - 1], CountUnknown(ps, n - 1), args))
  }

  /** Names and known values hold no braces, so they pass through format. */
  predicate ParamLiteral(p: Param) {
    Literal(p.name) && (p.slot.Known? && p.slot.text.Some? ==> Literal(p.slot.text.value))
  }

  predicate AllLiteral(ps: seq<Param>) {
    forall i :: 0 <= i < |ps| ==> ParamLiteral(ps[i])
  }

  // ---------------------------------------------------------------------
  // Lemmas.

  /** Text without braces is copied. */
  lemma {:induction false} FormatLiteral(s: string, rest: string, args: seq<string>)
    requires Literal(s)
    ensures Format(s + rest, args) == Prepend(s, Format(rest, args))
  {
    if s != [] {
      var t := s + rest;
      assert s[0] in s;
      assert t[0] == s[0] && t[1..] == s[1..] + rest;
      assert Format(t, args) == Prepend([s[0]], Format(s[1..] + rest, args));
      FormatLiteral(s[1..], rest, args);
      PrependPrepend([s[0]], s[1..], Format(rest, args));
      assert [s[0]] + s[1..] == s;
    } else {
      assert s + rest == rest;
      if Format(rest, args).Some? {
        assert s + Format(rest, args).value == Format(rest, args).value;
      }
    }
  }

  lemma {:induction false} DigitRunDigits(d: string, u: string)
    requires AllDigits(d) && (u == [] || !IsDigit(u[0]))
    ensures DigitRun(d + u) == |d|
  {
    if d != [] {
      assert (d + u)[1..] == d[1..] + u;
      DigitRunDigits(d[1..], u);
    }
  }

  /** The digit run of a string is that of its prefix, unless it reaches
      the end of the prefix. */
  lemma {:induction false} DigitRunAppend(s: string, u: string)
    ensures DigitRun(s) < |s| ==> DigitRun(s + u) == DigitRun(s)
    ensures DigitRun(s) == |s| ==> DigitRun(s + u) >= |s|
  {
    if s != [] {
      assert (s + u)[0] == s[0];
      assert (s + u)[1..] == s[1..] + u;
      DigitRunAppend(s[1..], u);
    }
  }

  /** A placeholder is replaced by its argument. */
  lemma FormatPlaceholder(k: nat, rest: string, args: seq<string>)
    requires k < |args|
    ensures Format(Placeholder(k) + rest, args) == Prepend(args[k], Format(rest, args))
  {
    var d := NatToString(k);
    var t := Placeholder(k) + rest;
    assert t[1..] == d + ("}" + rest);
    DigitRunDigits(d, "}" + rest);
    assert t[1..][..|d|] == d;
    DigitsValueOfNatToString(k);
    assert t[1 + |d|] == '}';
    assert t[2 + |d|..] == rest;
    assert d[0] == t[1] && IsDigit(d[0]);
  }

  lemma FormatKnownPiece(p: Param, k: nat, rest: string, args: seq<string>)
    requires ParamLiteral(p) && p.slot.Known?
    ensures Format(Piece(p, k) + rest, args) == Prepend(Render(p, ""), Format(rest, args))
  {
    var open := if p.index == 0 then " +" + p.name else ",";
    var tail := match p.slot.text case None => "" case Some(v) => if p.index == 0 then "=" + v else v;
    assert Piece(p, k) == open + tail == Render(p, "");
    assert Literal(open + tail);
    FormatLiteral(open + tail, rest, args);
  }

  lemma FormatLeadPlaceholder(lead: string, k: nat, rest: string, args: seq<string>)
    requires Literal(lead) && k < |args|
    ensures Format((lead + Placeholder(k)) + rest, args) == Prepend(lead + args[k], Format(rest, args))
  {
    assert (lead + Placeholder(k)) + rest == lead + (Placeholder(k) + rest);
    FormatLiteral(lead, Placeholder(k) + rest, args);
    FormatPlaceholder(k, rest, args);
    PrependPrepend(lead, args[k], Format(rest, args));
  }

  lemma FormatUnknownPiece(p: Param, k: nat, rest: string, args: seq<string>)
    requires ParamLiteral(p) && p.slot.Unknown? && k < |args|
    ensures Format(Piece(p, k) + rest, args) == Prepend(Render(p, args[k]), Format(rest, args))
  {
    var lead := if p.index == 0 then " +" + p.name + "=" else ",";
    assert Literal(lead);
    assert Piece(p, k) == lead + Placeholder(k) && Render(p, args[k]) == lead + args[k] by {
      if p.index == 0 {
        assert Piece(p, k) == (" +" + p.name) + ("=" + Placeholder(k));
        assert Render(p, args[k]) == (" +" + p.name) + ("=" + args[k]);
      }
    }
    FormatLeadPlaceholder(lead, k, rest, args);
  }

  /** An entry's piece is formatted into the entry's rendering with its
      argument. */
  lemma FormatPiece(p: Param, k: nat, rest: string, args: seq<string>)
    requires ParamLiteral(p) && (p.slot.Unknown? ==> k < |args|)
    ensures Format(Piece(p, k) + rest, args) == Prepend(Render(p, Field(p, k, args)), Format(rest, args))
  {
    if p.slot.Known? {
      FormatKnownPiece(p, k, rest, args);
    } else {
      FormatUnknownPiece(p, k, rest, args);
    }
  }

  /** Formatting a prefix and then a piece formats their concatenation. */
  lemma FormatThen(l: string, piece: string, rest: string, f: string, r: string, args: seq<string>)
    requires Format(l + (piece + rest), args) == Prepend(f, Format(piece + rest, args))
    requires Format(piece + rest, args) == Prepend(r, Format(rest, args))
    ensures Format((l + piece) + rest, args) == Prepend(f + r, Format(rest, args))
  {
    assert (l + piece) + rest == l + (piece + rest);
    PrependPrepend(f, r, Format(rest, args));
  }

  /** The template of the first `n` entries formats into their filled
      string, whatever follows it. */
  lemma {:induction false} FormatLayoutRest(ps: seq<Param>, n: nat, rest: string, args: seq<string>)
    requires n <= |ps| && AllLiteral(ps) && CountUnknown(ps, n) <= |args|
    ensures Format(Layout(ps, n) + rest, args) == Prepend(Filled(ps, n, args), Format(rest, args))
  {
    if n == 0 {
      FormatLiteral([], rest, args);
    } else {
      var k := CountUnknown(ps, n - 1);
      var piece := Piece(ps[n - 1], k);
      assert ParamLiteral(ps[n - 1]);
      var r := Render(ps[n - 1], Field(ps[n - 1], k, args));
      FormatLayoutRest(ps, n - 1, piece + rest, args);
      FormatPiece(ps[n - 1], k, rest, args);
      FormatThen(Layout(ps, n - 1), piece, rest, Filled(ps, n - 1, args), r, args);
    }
  }

  lemma FormatLayout(ps: seq<Param>, n: nat, args: seq<string>)
    requires n <= |ps| && AllLiteral(ps) && CountUnknown(ps, n) <= |args|
    ensures Format(Layout(ps, n), args) == Some(Filled(ps, n, args))
  {
    FormatLayoutRest(ps, n, [], args);
    assert Layout(ps, n) + [] == Layout(ps, n);
    assert Filled(ps, n, args) + [] == Filled(ps, n, args);
  }

  lemma AppendPrepend(w: string, r: Option<string>, u: string)
    ensures Append(Prepend(w, r), u) == Prepend(w, Append(r, u))
  {
    if r.Some? {
      assert (w + r.value) + u == w + (r.value + u);
    }
  }

  /** Text without braces after a template is copied after its result,
      and a template that fails still fails. */
  lemma {:induction false} FormatLiteralSuffix(m: string, post: string, args: seq<string>)
    requires Literal(post)
    ensures Format(m + post, args) == Append(Format(m, args), post)
    decreases |m|, 1
  {
    var t := m + post;
    if m == [] {
      assert t == post + [];
      FormatLiteral(post, [], args);
    } else if m[0] == '{' {
      FieldSuffix(m, post, args);
    } else if m[0] == '}' {
      if |m| >= 2 && m[1] == '}' {
        assert t[2..] == m[2..] + post;
        FormatLiteralSuffix(m[2..], post, args);
        AppendPrepend("}", Format(m[2..], args), post);
      } else {
        assert |m| == 1 && post != [] ==> t[1] == post[0] && post[0] in post;
        assert |m| >= 2 ==> t[1] == m[1];
      }
    } else {
      assert t[0] == m[0] && t[1..] == m[1..] + post;
      FormatLiteralSuffix(m[1..], post, args);
      AppendPrepend([m[0]], Format(m[1..], args), post);
    }
  }

  /** FormatLiteralSuffix for a template that opens with `{`. */
  lemma {:induction false} FieldSuffix(m: string, post: string, args: seq<string>)
    requires Literal(post) && m != [] && m[0] == '{'
    ensures Format(m + post, args) == Append(Format(m, args), post)
    decreases |m|, 0
  {
    var t := m + post;
    if |m| >= 2 && m[1] == '{' {
      assert t[2..] == m[2..] + post;
      FormatLiteralSuffix(m[2..], post, args);
      AppendPrepend("{", Format(m[2..], args), post);
    } else if |m| == 1 {
      assert t[1..] == post;
      assert post != [] ==> post[0] in post;
      DigitRunAppend(m[1..], post);
    } else {
      assert t[1] == m[1];
      assert t[1..] == m[1..] + post;
      DigitRunAppend(m[1..], post);
      var n := DigitRun(m[1..]);
      if n < |m| - 1 {
        assert t[1 + n] == m[1 + n];
        assert t[1..][..n] == m[1..][..n];
        assert t[2 + n..] == m[2 + n..] + post;
        FormatLiteralSuffix(m[2 + n..], post, args);
        if n > 0 && m[1 + n] == '}' && DigitsValue(m[1..][..n]) < |args| {
          AppendPrepend(args[DigitsValue(m[1..][..n])], Format(m[2 + n..], args), post);
        }
      } else {
        var nt := DigitRun(t[1..]);
        assert 1 + nt < |t| ==> t[1 + nt] == post[1 + nt - |m|] && post[1 + nt - |m|] in post;
      }
    }
  }

  lemma SpacesLiteral(s: string)
    requires forall j :: 0 <= j < |s| ==> IsSpace(s[j])
    ensures Literal(s)
  {
  }

  /** Stripping the whitespace around a template strips it around the
      result, and does not change whether format succeeds. */
  lemma FormatStrip(l: string, args: seq<string>)
    ensures var a := |l| - |StripLeft(l)|; var b := a + |Strip(l)|;
      b <= |l|
      && (Format(l, args).Some? <==> Format(Strip(l), args).Some?)
      && (Format(l, args).Some? ==> Format(l, args).value == l[..a] + Format(Strip(l), args).value + l[b..])
  {
    StripInfix(l);
    var a := |l| - |StripLeft(l)|;
    var b := a + |Strip(l)|;
    var pre, post := l[..a], l[b..];
    SpacesLiteral(pre);
    SpacesLiteral(post);
    assert l == pre + (Strip(l) + post);
    FormatLiteral(pre, Strip(l) + post, args);
    FormatLiteralSuffix(Strip(l), post, args);
  }

  /** The template find_params builds formats, with the solution's values
      as arguments, into the `+name=value` string of the entries with the
      unknowns' values in place, less the whitespace strip() took from its
      ends. */
  lemma FormatTemplate(ps: seq<Param>, args: seq<string>)
    requires AllLiteral(ps) && CountUnknown(ps, |ps|) <= |args|
    ensures var l := Layout(ps, |ps|); var a := |l| - |StripLeft(l)|; var b := a + |Strip(l)|;
      b <= |l| && Format(Strip(l), args).Some?
      && Filled(ps, |ps|, args) == l[..a] + Format(Strip(l), args).value + l[b..]
  {
    var l := Layout(ps, |ps|);
    FormatLayout(ps, |ps|, args);
    StripFormatted(l, Filled(ps, |ps|, args), args);
  }

  lemma StripFormatted(l: string, f: string, args: seq<string>)
    requires Format(l, args) == Some(f)
    ensures var a := |l| - |StripLeft(l)|; var b := a + |Strip(l)|;
      b <= |l| && Format(Strip(l), args).Some? && f == l[..a] + Format(Strip(l), args).value + l[b..]
  {
    FormatStrip(l, args);
  }
}
