/** The control-point reader of guessproj.py (read_points): each line of the
    input holds two or three source coordinates, as many target
    coordinates, and an optional free-text label. Opening and decoding the
    file is not modelled; the reader works on the sequence of its lines. */
module Points {
  import opened Common
  import opened Coordinates

  /** A control point: source and target coordinates of the same arity
      (2 or 3) and a label. */
  datatype Point = Point(src: seq<real>, tgt: seq<real>, name: string)

  /** What one line contributes: nothing (blank or comment), a ValueError,
      or a point. */
  datatype LineResult = Skip | Bad | Got(point: Point)

  /** How a token is read as a coordinate; the reader uses
      `CoordParser(num)`, that is parse_coord. */
  type Parser = string -> Result<real, CoordError>

  function CoordParser(num: string -> Option<real>): Parser {
    t => ParseCoord(Some(t), num)
  }

  /** The tokens of a line: `line.strip().split()`. */
  function Tokens(line: string): seq<string> {
    Words(Strip(line))
  }

  predicate IsComment(tokens: seq<string>) {
    tokens == [] || StartsWith(tokens[0], "#")
  }

  /** The number of leading tokens that parse as coordinates. */
  function LeadingCoords(tokens: seq<string>, parse: Parser): (n: nat)
    ensures n <= |tokens|
  {
    if tokens == [] || !parse(tokens[0]).Ok? then 0 else 1 + LeadingCoords(tokens[1..], parse)
  }

  /** The count of leading coordinates is the position of the first token
      that is not one. */
  lemma {:induction false} LeadingCoordsIsFirstFailure(tokens: seq<string>, parse: Parser, k: nat)
    requires k <= |tokens|
    requires forall j :: 0 <= j < k ==> parse(tokens[j]).Ok?
    requires k < |tokens| ==> !parse(tokens[k]).Ok?
    ensures LeadingCoords(tokens, parse) == k
  {
    if k > 0 {
      assert parse(tokens[0]).Ok?;
      forall j | 0 <= j < k - 1 ensures parse(tokens[1..][j]).Ok? {
        assert tokens[1..][j] == tokens[j + 1];
      }
      LeadingCoordsIsFirstFailure(tokens[1..], parse, k - 1);
    }
  }

  lemma {:induction false} LeadingCoordsParse(tokens: seq<string>, parse: Parser)
    ensures forall j :: 0 <= j < LeadingCoords(tokens, parse) ==> parse(tokens[j]).Ok?
    ensures LeadingCoords(tokens, parse) < |tokens| ==> !parse(tokens[LeadingCoords(tokens, parse)]).Ok?
  {
    if tokens != [] && parse(tokens[0]).Ok? {
      LeadingCoordsParse(tokens[1..], parse);
      forall j | 0 < j < LeadingCoords(tokens, parse) ensures parse(tokens[j]).Ok? {
        assert tokens[j] == tokens[1..][j - 1];
      }
    }
  }

  /** `min(n, 6)`, then 5 becomes 4. */
  function ClampCount(n: nat): (c: nat)
    ensures c <= n && c <= 6 && c != 5
    ensures n >= 6 ==> c == 6
    ensures n < 6 && n != 5 ==> c == n
    ensures n == 5 ==> c == 4
  {
    var c := if n > 6 then 6 else n;
    if c == 5 then 4 else c
  }

  /** The values of tokens known to be coordinates. */
  function Values(ts: seq<string>, parse: Parser): (vs: seq<real>)
    requires forall j :: 0 <= j < |ts| ==> parse(ts[j]).Ok?
    ensures |vs| == |ts|
    ensures forall j :: 0 <= j < |ts| ==> parse(ts[j]) == Ok(vs[j])
  {
    if ts == [] then [] else [parse(ts[0]).value] + Values(ts[1..], parse)
  }

  /** The point built from the pieces of the re-split line: the first half
      of the `c` coordinate pieces are the source, the second half the
      target, and the piece after them, if any, the label. */
  function MakePoint(pieces: seq<string>, c: nat, parse: Parser): Point
    requires c <= |pieces|
    requires forall j :: 0 <= j < c ==> parse(pieces[j]).Ok?
  {
    var k := c / 2;
    Point(Values(pieces[..k], parse), Values(pieces[k..c], parse), if |pieces| > c then pieces[c] else "")
  }

  /** The rule for one line (guessproj.py:220-247). */
  function LineRule(line: string, parse: Parser): LineResult {
    var ts := Tokens(line);
    if IsComment(ts) then Skip
    else
      var c := ClampCount(LeadingCoords(ts, parse));
      if c < 4 then Bad
      else
        PiecesParse(line, c, parse);
        Got(MakePoint(SplitMax(Strip(line), c), c, parse))
  }

  /** The first `count` pieces of the bounded split are the first tokens,
      and the piece after them, if any, splits into the tokens that follow. */
  lemma LabelSplit(line: string, count: nat)
    requires count <= |Tokens(line)|
    ensures var rest := SplitMax(Strip(line), count);
      |rest| >= count
      && rest[..count] == Tokens(line)[..count]
      && (|rest| > count <==> count < |Tokens(line)|)
      && (|rest| > count ==> |rest| == count + 1 && Words(rest[count]) == Tokens(line)[count..])
  {
    if count < |Tokens(line)| {
      SplitMaxWords(Strip(line), count);
    } else {
      SplitMaxAllWords(Strip(line), count);
    }
  }

  /** When the first `c` tokens are coordinates, so are the first `c` pieces
      of the line split at most `c` times. */
  lemma PiecesParse(line: string, c: nat, parse: Parser)
    requires c <= LeadingCoords(Tokens(line), parse)
    ensures c <= |SplitMax(Strip(line), c)|
    ensures SplitMax(Strip(line), c)[..c] == Tokens(line)[..c]
    ensures forall j :: 0 <= j < c ==> parse(SplitMax(Strip(line), c)[j]).Ok?
  {
    var ts := Tokens(line);
    LeadingCoordsParse(ts, parse);
    LabelSplit(line, c);
    var pieces := SplitMax(Strip(line), c);
    forall j | 0 <= j < c ensures parse(pieces[j]).Ok? {
      assert pieces[j] == pieces[..c][j];
    }
  }

  /** read_points' per-line step, as the source computes it: the token
      loop stops at the first token that is not a coordinate. */
  method ClassifyLine(line: string, parse: Parser) returns (r: LineResult)
    ensures r == LineRule(line, parse)
  {
    var tokens := Tokens(line);
    if tokens == [] || StartsWith(tokens[0], "#") {
      return Skip;
    }
    var count := |tokens|;
    var i := 0;
    while i < |tokens|
      invariant 0 <= i <= |tokens|
      invariant forall j :: 0 <= j < i ==> parse(tokens[j]).Ok?
      invariant count == |tokens|
    {
      if !parse(tokens[i]).Ok? {
        count := i;
        break;
      }
      i := i + 1;
    }
    LeadingCoordsIsFirstFailure(tokens, parse, count);
    count := if count > 6 then 6 else count;
    if count == 5 {
      count := 4;
    }
    if count < 4 {
      return Bad;
    }
    var pieces := SplitMax(Strip(line), count);
    PiecesParse(line, count, parse);
    r := Got(MakePoint(pieces, count, parse));
  }

  /** Blank lines and lines whose first token starts with `#` are skipped,
      and only those. */
  lemma SkipRule(line: string, parse: Parser)
    ensures LineRule(line, parse).Skip? <==> Tokens(line) == [] || StartsWith(Tokens(line)[0], "#")
  {
  }

  /** Any other line is rejected exactly when fewer than four of its
      leading tokens are coordinates. */
  lemma BadRule(line: string, parse: Parser)
    requires !IsComment(Tokens(line))
    ensures LineRule(line, parse).Bad? <==> LeadingCoords(Tokens(line), parse) < 4
  {
  }

  /** A point has two coordinates per side when four or five leading tokens
      are coordinates and three when six or more are; each coordinate is the
      parsed token at its position. */
  lemma PointRule(line: string, parse: Parser)
    requires LineRule(line, parse).Got?
    ensures var p := LineRule(line, parse).point;
      var ts, n := Tokens(line), LeadingCoords(Tokens(line), parse);
      |p.src| == |p.tgt|
      && (|p.src| == 2 <==> 4 <= n <= 5)
      && (|p.src| == 3 <==> 6 <= n)
      && (forall j :: 0 <= j < |p.src| ==> parse(ts[j]) == Ok(p.src[j]))
      && (forall j :: 0 <= j < |p.tgt| ==> parse(ts[|p.src| + j]) == Ok(p.tgt[j]))
  {
    var ts := Tokens(line);
    var c := ClampCount(LeadingCoords(ts, parse));
    var pieces := SplitMax(Strip(line), c);
    PiecesParse(line, c, parse);
    MakePointValues(pieces, c, parse);
    var p := MakePoint(pieces, c, parse);
    assert forall j :: 0 <= j < c ==> pieces[j] == ts[j] by {
      assert forall j :: 0 <= j < c ==> pieces[..c][j] == pieces[j] && ts[..c][j] == ts[j];
    }
  }

  /** Each coordinate of a built point is the parsed piece at its position. */
  lemma MakePointValues(pieces: seq<string>, c: nat, parse: Parser)
    requires c <= |pieces|
    requires forall j :: 0 <= j < c ==> parse(pieces[j]).Ok?
    ensures var p := MakePoint(pieces, c, parse);
      |p.src| == c / 2 && |p.tgt| == c - c / 2
      && (forall j :: 0 <= j < |p.src| ==> parse(pieces[j]) == Ok(p.src[j]))
      && (forall j :: 0 <= j < |p.tgt| ==> parse(pieces[|p.src| + j]) == Ok(p.tgt[j]))
  {
    var k := c / 2;
    var p := MakePoint(pieces, c, parse);
    forall j | 0 <= j < |p.tgt| ensures parse(pieces[k + j]) == Ok(p.tgt[j]) {
      assert pieces[k..c][j] == pieces[k + j];
    }
  }

  /** The label is empty when the line has no tokens beyond the
      coordinates; otherwise it is the unsplit rest of the line, which splits
      into exactly the remaining tokens and carries no surrounding
      whitespace. */
  lemma LabelRule(line: string, parse: Parser)
    requires LineRule(line, parse).Got?
    ensures var p := LineRule(line, parse).point;
      var ts, c := Tokens(line), 2 * |p.src|;
      (p.name == [] <==> |ts| == c)
      && Words(p.name) == ts[c..]
      && (p.name != [] ==> !IsSpace(p.name[0]) && !IsSpace(p.name[|p.name| - 1]))
  {
    var ts := Tokens(line);
    var c := ClampCount(LeadingCoords(ts, parse));
    PiecesParse(line, c, parse);
    var p := MakePoint(SplitMax(Strip(line), c), c, parse);
    assert LineRule(line, parse).point == p;
    MakePointValues(SplitMax(Strip(line), c), c, parse);
    assert c == 4 || c == 6;
    assert 2 * |p.src| == c;
    LabelOf(line, c);
  }

  /** The piece after the first `c` of a line split at most `c` times. */
  lemma LabelOf(line: string, c: nat)
    requires c <= |Tokens(line)|
    ensures var rest := SplitMax(Strip(line), c);
      var name := if |rest| > c then rest[c] else "";
      (name == [] <==> |Tokens(line)| == c)
      && Words(name) == Tokens(line)[c..]
      && (name != [] ==> !IsSpace(name[0]) && !IsSpace(name[|name| - 1]))
  {
    var ts := Tokens(line);
    var rest := SplitMax(Strip(line), c);
    LabelSplit(line, c);
    if |rest| > c {
      StripEnds(line);
      LabelPiece(Strip(line), c);
      assert Words(rest[c]) != [] by { assert |ts[c..]| > 0; }
    } else {
      assert ts[c..] == [];
    }
  }

  /** The last piece of a bounded split of a text with no trailing
      whitespace is trimmed at both ends. */
  lemma {:induction false} LabelPiece(s: string, maxsplit: nat)
    requires |SplitMax(s, maxsplit)| > maxsplit
    requires s != [] ==> !IsSpace(s[|s| - 1])
    ensures var r := SplitMax(s, maxsplit)[maxsplit];
      r != [] && !IsSpace(r[0]) && !IsSpace(r[|r| - 1])
    decreases |s|
  {
    var t := StripLeft(s);
    assert t != [];
    StripLeftIsSuffix(s);
    assert t[|t| - 1] == s[|s| - 1];
    if maxsplit == 0 {
      assert SplitMax(s, maxsplit)[maxsplit] == t;
    } else {
      var n := WordLength(t);
      var u := t[n..];
      assert SplitMax(s, maxsplit) == [t[..n]] + SplitMax(u, maxsplit - 1);
      assert SplitMax(s, maxsplit)[maxsplit] == SplitMax(u, maxsplit - 1)[maxsplit - 1];
      assert u != [] ==> u[|u| - 1] == t[|t| - 1];
      LabelPiece(u, maxsplit - 1);
    }
  }

  // ---------------------------------------------------------------------
  // The whole file.

  /** The points of a file's lines, or `None` when some line raises. */
  function ReadAll(lines: seq<string>, parse: Parser): Option<seq<Point>> {
    if lines == [] then Some([])
    else match LineRule(lines[0], parse)
      case Skip => ReadAll(lines[1..], parse)
      case Bad => None
      case Got(p) =>
        var rest := ReadAll(lines[1..], parse);
        if rest.None? then None else Some([p] + rest.value)
  }

  lemma ReadAllStep(lines: seq<string>, i: nat, parse: Parser)
    requires i < |lines|
    ensures ReadAll(lines[i..], parse) ==
      match LineRule(lines[i], parse)
      case Skip => ReadAll(lines[i + 1..], parse)
      case Bad => None
      case Got(p) => Prepend([p], ReadAll(lines[i + 1..], parse))
  {
    assert lines[i..][1..] == lines[i + 1..];
  }

  /** One iteration of the reader keeps the points read so far in front of
      what the remaining lines yield. */
  lemma ReadStep(lines: seq<string>, i: nat, parse: Parser, points: seq<Point>, lr: LineResult)
    requires i < |lines| && lr == LineRule(lines[i], parse)
    requires Prepend(points, ReadAll(lines[i..], parse)) == ReadAll(lines, parse)
    ensures lr.Bad? ==> ReadAll(lines, parse) == None
    ensures lr.Skip? ==> Prepend(points, ReadAll(lines[i + 1..], parse)) == ReadAll(lines, parse)
    ensures lr.Got? ==> Prepend(points + [lr.point], ReadAll(lines[i + 1..], parse)) == ReadAll(lines, parse)
  {
    ReadAllStep(lines, i, parse);
    if lr.Got? {
      PrependPrepend(points, [lr.point], ReadAll(lines[i + 1..], parse));
    }
  }

  /** read_points over the lines of a file; the source reads each token
      with parse_coord, that is `parse == CoordParser(num)`. */
  method ReadPoints(lines: seq<string>, parse: Parser) returns (r: Option<seq<Point>>)
    ensures r == ReadAll(lines, parse)
  {
    var points: seq<Point> := [];
    var i := 0;
    PrependNothing(ReadAll(lines, parse));
    while i < |lines|
      invariant 0 <= i <= |lines|
      invariant Prepend(points, ReadAll(lines[i..], parse)) == ReadAll(lines, parse)
    {
      var lr := ClassifyLine(lines[i], parse);
      ReadStep(lines, i, parse, points, lr);
      match lr {
        case Skip =>
        case Bad => return None;
        case Got(p) => points := points + [p];
      }
      i := i + 1;
    }
    assert lines[i..] == [];
    assert points + [] == points;
    r := Some(points);
  }

  predicate WellShaped(p: Point) {
    |p.src| == |p.tgt| && (|p.src| == 2 || |p.src| == 3)
  }

  /** Reading succeeds exactly when no line raises, and every point read
      pairs two or three source coordinates with as many target ones. */
  lemma {:induction false} ReadAllRule(lines: seq<string>, parse: Parser)
    ensures ReadAll(lines, parse).Some? <==> forall i :: 0 <= i < |lines| ==> !LineRule(lines[i], parse).Bad?
    ensures ReadAll(lines, parse).Some? ==> forall p :: p in ReadAll(lines, parse).value ==> WellShaped(p)
  {
    if lines != [] {
      ReadAllRule(lines[1..], parse);
      assert forall i :: 0 < i < |lines| ==> lines[i] == lines[1..][i - 1];
      var lr := LineRule(lines[0], parse);
      if lr.Got? {
        PointRule(lines[0], parse);
      }
    }
  }
}
