/** Shared vocabulary: failure-carrying wrappers and the handful of Python
    string operations the tool relies on (startswith, split, join, strip,
    str(int), int(str)), stated over `string == seq<char>`. */
module Common {

  datatype Option<+T> = None | Some(value: T)

  datatype Result<+T, +E> = Ok(value: T) | Err(error: E)

  /** Puts `a` in front of a result that may be missing. */
  function Prepend<T>(a: seq<T>, r: Option<seq<T>>): Option<seq<T>> {
    match r
    case None => None
    case Some(t) => Some(a + t)
  }

  lemma PrependNothing<T>(r: Option<seq<T>>)
    ensures Prepend([], r) == r
  {
    if r.Some? {
      assert [] + r.value == r.value;
    }
  }

  lemma PrependPrepend<T>(a: seq<T>, b: seq<T>, r: Option<seq<T>>)
    ensures Prepend(a, Prepend(b, r)) == Prepend(a + b, r)
  {
    if r.Some? {
      assert a + (b + r.value) == (a + b) + r.value;
    }
  }

  predicate StartsWith(s: string, prefix: string) {
    |prefix| <= |s| && s[..|prefix|] == prefix
  }

  /** `s.startswith(c)` for a one-character prefix. */
  predicate StartsWithChar(s: string, c: char) {
    s != [] && s[0] == c
  }

  /** `s.startswith(cd)` for a two-character prefix. */
  predicate StartsWithPair(s: string, c: char, d: char) {
    |s| >= 2 && s[0] == c && s[1] == d
  }

  predicate IsDigit(c: char) { '0' <= c <= '9' }

  predicate AllDigits(s: string) { forall i :: 0 <= i < |s| ==> IsDigit(s[i]) }

  /** The characters Python's `str.strip()` and `str.split()` treat as
      whitespace, restricted to ASCII. */
  predicate IsSpace(c: char) {
    c == ' ' || c == '\t' || c == '\n' || c == '\r' || c == '\U{B}' || c == '\U{C}'
    || c == '\U{1C}' || c == '\U{1D}' || c == '\U{1E}' || c == '\U{1F}'
  }

  // ---------------------------------------------------------------------
  // Decimal digits: Python's str(n) for n >= 0 and int(s) on digit strings.

  function DigitChar(d: nat): (c: char)
    requires d < 10
    ensures IsDigit(c) && c as int - '0' as int == d
  {
    (d + '0' as int) as char
  }

  /** Python's `str(n)` for a non-negative integer. */
  function NatToString(n: nat): (s: string)
    ensures |s| > 0 && AllDigits(s)
    ensures |s| > 1 ==> s[0] != '0'
  {
    if n < 10 then [DigitChar(n)] else NatToString(n / 10) + [DigitChar(n % 10)]
  }

  /** Python's `int(s)` on a string of ASCII digits. */
  function DigitsValue(s: string): nat
    requires AllDigits(s)
  {
    if s == [] then 0
    else DigitsValue(s[..|s| - 1]) * 10 + (s[|s| - 1] as int - '0' as int)
  }

  lemma {:induction false} DigitsValueOfNatToString(n: nat)
    ensures DigitsValue(NatToString(n)) == n
  {
    if n >= 10 {
      var s := NatToString(n);
      assert s[..|s| - 1] == NatToString(n / 10);
      DigitsValueOfNatToString(n / 10);
    }
  }

  /** Decimal rendering is injective, so `name.i` keys never collide. */
  lemma NatToStringInjective(m: nat, n: nat)
    ensures NatToString(m) == NatToString(n) ==> m == n
  {
    if NatToString(m) == NatToString(n) {
      DigitsValueOfNatToString(m);
      DigitsValueOfNatToString(n);
    }
  }

  /** Python's `str(i)` for any integer. */
  function IntToString(i: int): (s: string)
    ensures s != [] && '.' !in s
  {
    if i >= 0 then NatToString(i) else "-" + NatToString(-i)
  }

  lemma IntToStringInjective(i: int, j: int)
    ensures IntToString(i) == IntToString(j) ==> i == j
  {
    assert IntToString(i)[0] == '-' <==> i < 0;
    assert IntToString(j)[0] == '-' <==> j < 0;
    if i >= 0 && j >= 0 {
      NatToStringInjective(i, j);
    } else if i < 0 && j < 0 {
      assert NatToString(-i) == IntToString(i)[1..];
      assert NatToString(-j) == IntToString(j)[1..];
      NatToStringInjective(-i, -j);
    }
  }

  // ---------------------------------------------------------------------
  // Splitting and joining on a separator character.

  /** Python's `s.split(sep)` for a one-character separator. */
  function SplitOn(s: string, sep: char): (parts: seq<string>)
    ensures |parts| >= 1
  {
    if s == [] then [[]]
    else if s[0] == sep then [[]] + SplitOn(s[1..], sep)
    else
      var rest := SplitOn(s[1..], sep);
      [[s[0]] + rest[0]] + rest[1..]
  }

  /** Without the separator there is one part, the whole string. */
  lemma {:induction false} SplitOnNone(s: string, sep: char)
    requires sep !in s
    ensures SplitOn(s, sep) == [s]
  {
    if s != [] {
      SplitOnNone(s[1..], sep);
      assert [s[0]] + s[1..] == s;
    }
  }

  /** With the separator exactly once, the two sides are the two parts. */
  lemma {:induction false} SplitOnOnce(a: string, b: string, sep: char)
    requires sep !in a && sep !in b
    ensures SplitOn(a + [sep] + b, sep) == [a, b]
  {
    var s := a + [sep] + b;
    if a == [] {
      assert s[1..] == b;
      SplitOnNone(b, sep);
    } else {
      assert s[1..] == a[1..] + [sep] + b;
      SplitOnOnce(a[1..], b, sep);
      assert [a[0]] + a[1..] == a;
    }
  }

  /** The first part holds no separator. */
  lemma {:induction false} SplitOnFirst(s: string, sep: char)
    ensures sep !in SplitOn(s, sep)[0]
  {
    if s != [] && s[0] != sep {
      SplitOnFirst(s[1..], sep);
    }
  }

  /** Python's `sep.join(parts)`. */
  function Join(sep: string, parts: seq<string>): string {
    if parts == [] then []
    else if |parts| == 1 then parts[0]
    else parts[0] + sep + Join(sep, parts[1..])
  }

  lemma {:induction false} JoinSplitOn(s: string, sep: char)
    ensures Join([sep], SplitOn(s, sep)) == s
  {
    if s != [] {
      JoinSplitOn(s[1..], sep);
      var rest := SplitOn(s[1..], sep);
      if s[0] == sep {
        JoinEmptyFirst(sep, rest);
      } else {
        JoinExtendFirst(s[0], sep, rest);
      }
      assert [s[0]] + s[1..] == s;
    }
  }

  lemma JoinEmptyFirst(sep: char, rest: seq<string>)
    requires |rest| >= 1
    ensures Join([sep], [[]] + rest) == [sep] + Join([sep], rest)
  {
    assert ([[]] + rest)[1..] == rest;
  }

  lemma JoinExtendFirst(c: char, sep: char, rest: seq<string>)
    requires |rest| >= 1
    ensures Join([sep], [[c] + rest[0]] + rest[1..]) == [c] + Join([sep], rest)
  {
    var parts := [[c] + rest[0]] + rest[1..];
    if |rest| > 1 {
      assert parts[1..] == rest[1..];
    }
  }

  /** Position of the first `c` in `s`, if any. */
  function IndexOf(s: string, c: char): (r: Option<nat>)
    ensures r.Some? ==> r.value < |s| && s[r.value] == c && c !in s[..r.value]
    ensures r.None? <==> c !in s
  {
    if s == [] then None
    else if s[0] == c then Some(0)
    else match IndexOf(s[1..], c)
      case None => None
      case Some(i) => Some(i + 1)
  }

  // ---------------------------------------------------------------------
  // Whitespace: strip and the two forms of split() used on point lines.

  function StripLeft(s: string): (r: string)
    ensures |r| <= |s|
    ensures r != [] ==> !IsSpace(r[0])
  {
    if s != [] && IsSpace(s[0]) then StripLeft(s[1..]) else s
  }

  function StripRight(s: string): (r: string)
    ensures |r| <= |s|
    ensures r != [] ==> !IsSpace(r[|r| - 1])
  {
    if s != [] && IsSpace(s[|s| - 1]) then StripRight(s[..|s| - 1]) else s
  }

  /** Python's `s.strip()`: the longest infix with no whitespace at either end. */
  function Strip(s: string): string {
    StripRight(StripLeft(s))
  }

  lemma {:induction false} StripRightIsPrefix(s: string)
    ensures StripRight(s) == s[..|StripRight(s)|]
  {
    if s != [] && IsSpace(s[|s| - 1]) {
      StripRightIsPrefix(s[..|s| - 1]);
    }
  }

  lemma {:induction false} StripLeftIsSuffix(s: string)
    ensures StripLeft(s) == s[|s| - |StripLeft(s)|..]
  {
    if s != [] && IsSpace(s[0]) {
      StripLeftIsSuffix(s[1..]);
    }
  }

  /** strip() removes whitespace only: the result is an infix of `s` with
      nothing but whitespace before and after it. */
  lemma StripInfix(s: string)
    ensures var a := |s| - |StripLeft(s)|;
      a + |Strip(s)| <= |s| && s[a..a + |Strip(s)|] == Strip(s)
      && (forall j :: 0 <= j < a ==> IsSpace(s[j]))
      && (forall j :: a + |Strip(s)| <= j < |s| ==> IsSpace(s[j]))
  {
    var l := StripLeft(s);
    var a := |s| - |l|;
    StripLeftIsSuffix(s);
    StripLeftDrops(s);
    StripRightIsPrefix(l);
    StripRightDrops(l);
    var t := Strip(s);
    assert s[a..a + |t|] == l[..|t|];
    forall j | a + |t| <= j < |s| ensures IsSpace(s[j]) {
      assert s[j] == l[j - a];
    }
  }

  lemma {:induction false} StripLeftDrops(s: string)
    ensures forall j :: 0 <= j < |s| - |StripLeft(s)| ==> IsSpace(s[j])
  {
    if s != [] && IsSpace(s[0]) {
      StripLeftDrops(s[1..]);
      forall j | 1 <= j < |s| - |StripLeft(s)| ensures IsSpace(s[j]) {
        assert s[j] == s[1..][j - 1];
      }
    }
  }

  lemma {:induction false} StripRightDrops(s: string)
    ensures forall j :: |StripRight(s)| <= j < |s| ==> IsSpace(s[j])
  {
    if s != [] && IsSpace(s[|s| - 1]) {
      StripRightDrops(s[..|s| - 1]);
      forall j | |StripRight(s)| <= j < |s| - 1 ensures IsSpace(s[j]) {
        assert s[j] == s[..|s| - 1][j];
      }
    }
  }

  /** The stripped string neither starts nor ends with whitespace. */
  lemma StripEnds(s: string)
    ensures Strip(s) != [] ==> !IsSpace(Strip(s)[0]) && !IsSpace(Strip(s)[|Strip(s)| - 1])
  {
    StripRightIsPrefix(StripLeft(s));
  }

  /** Python's `s.split()`: the maximal runs of non-whitespace characters. */
  function Words(s: string): (ws: seq<string>)
    decreases |s|
  {
    var t := StripLeft(s);
    if t == [] then []
    else
      var n := WordLength(t);
      [t[..n]] + Words(t[n..])
  }

  /** Length of the leading run of non-whitespace characters. */
  function WordLength(s: string): (n: nat)
    ensures n <= |s|
    ensures forall j :: 0 <= j < n ==> !IsSpace(s[j])
    ensures n < |s| ==> IsSpace(s[n])
  {
    if s == [] || IsSpace(s[0]) then 0 else 1 + WordLength(s[1..])
  }

  /** Python's `s.split(None, maxsplit)`: at most `maxsplit` words are cut
      off the front; what follows them, with its leading whitespace removed,
      is returned unsplit as one last element when it is not empty. */
  function SplitMax(s: string, maxsplit: nat): seq<string>
    decreases |s|
  {
    var t := StripLeft(s);
    if t == [] then []
    else if maxsplit == 0 then [t]
    else
      var n := WordLength(t);
      [t[..n]] + SplitMax(t[n..], maxsplit - 1)
  }

  /** A bounded split with room for every word is the plain split. */
  lemma {:induction false} SplitMaxAllWords(s: string, maxsplit: nat)
    requires maxsplit >= |Words(s)|
    ensures SplitMax(s, maxsplit) == Words(s)
    decreases |s|
  {
    var t := StripLeft(s);
    if t != [] {
      SplitMaxAllWords(t[WordLength(t)..], maxsplit - 1);
    }
  }

  /** The first `maxsplit` pieces of a bounded split are the first words,
      and the remainder splits into exactly the words that follow. */
  lemma {:induction false} SplitMaxWords(s: string, maxsplit: nat)
    requires maxsplit < |Words(s)|
    ensures |SplitMax(s, maxsplit)| == maxsplit + 1
    ensures SplitMax(s, maxsplit)[..maxsplit] == Words(s)[..maxsplit]
    ensures Words(SplitMax(s, maxsplit)[maxsplit]) == Words(s)[maxsplit..]
    decreases |s|
  {
    var t := StripLeft(s);
    StripLeftIdempotent(s);
    if maxsplit == 0 {
      assert SplitMax(s, 0) == [t];
    } else {
      var n := WordLength(t);
      var ws := Words(t[n..]);
      assert Words(s) == [t[..n]] + ws;
      SplitMaxWords(t[n..], maxsplit - 1);
      var sm := SplitMax(t[n..], maxsplit - 1);
      assert SplitMax(s, maxsplit) == [t[..n]] + sm;
      assert Words(s)[maxsplit..] == ws[maxsplit - 1..];
    }
  }

  lemma StripLeftIdempotent(s: string)
    ensures StripLeft(StripLeft(s)) == StripLeft(s)
    ensures Words(StripLeft(s)) == Words(s)
  {
  }
}
