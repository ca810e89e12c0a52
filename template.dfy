/** The projection-string template of guessproj.py (the first half of
    find_params): every target slot becomes a `(name, index)` entry, the
    entries are sorted, and the template is laid out from them with one
    `str.format` placeholder `{k}` per unknown slot, alongside the initial
    guesses and the variable names of the unknowns. */
module Template {
  import opened Common
  import Arguments

  /** A slot's value: known text (`None` for a bare flag) or an unknown's
      initial guess. */
  datatype Slot = Known(text: Option<string>) | Unknown(guess: real)

  /** An entry of param_list: the tuple `(name, index, value, is_known)`,
      with the last two carried by the slot. */
  datatype Param = Param(name: string, index: int, slot: Slot)

  /** A key that `k.split('.')` followed by `int(...)` cannot take apart
      (the ValueError find_params raises). */
  datatype TemplateError = BadKey(key: string)

  // ---------------------------------------------------------------------
  // Slot keys.

  /** A key `name` is index 0 of `name`; a key `name.i` is index `int(i)`
      of `name`. `None` when the key has more than one `.` or its index is
      not an integer; Python's int() is passed in as `toInt`. */
  function SplitKey(k: string, toInt: string -> Option<int>): Option<(string, int)> {
    if '.' !in k then Some((k, 0))
    else
      var parts := SplitOn(k, '.');
      if |parts| != 2 then None
      else match toInt(parts[1])
        case None => None
        case Some(i) => Some((parts[0], i))
  }

  /** A split key names no `.`. */
  lemma SplitKeyName(k: string, toInt: string -> Option<int>)
    requires SplitKey(k, toInt).Some?
    ensures '.' !in SplitKey(k, toInt).value.0
  {
    SplitOnFirst(k, '.');
  }

  /** Splitting undoes the keys parse_arguments makes: `name` and `name.i`
      come back as `(name, i)` whenever the decimal text of `i` reads back
      as `i`. */
  lemma SplitKeyOfKey(name: string, i: nat, toInt: string -> Option<int>)
    requires '.' !in name
    requires toInt(NatToString(i)) == Some(i)
    ensures SplitKey(Arguments.Key(name, i), toInt) == Some((name, i))
  {
    if i > 0 {
      var d := NatToString(i);
      assert '.' !in d by {
        assert forall j :: 0 <= j < |d| ==> IsDigit(d[j]);
      }
      assert Arguments.Key(name, i) == name + ['.'] + d;
      SplitOnOnce(name, d, '.');
    }
  }

  // ---------------------------------------------------------------------
  // The order of param_list.sort().

  /** Python's `<` on strings: code point by code point, a proper prefix
      first. */
  predicate StrLess(a: string, b: string) {
    if a == [] then b != []
    else b != [] && (a[0] < b[0] || (a[0] == b[0] && StrLess(a[1..], b[1..])))
  }

  lemma {:induction false} StrLessIrreflexive(a: string)
    ensures !StrLess(a, a)
  {
    if a != [] {
      StrLessIrreflexive(a[1..]);
    }
  }

  lemma {:induction false} StrLessTransitive(a: string, b: string, c: string)
    requires StrLess(a, b) && StrLess(b, c)
    ensures StrLess(a, c)
  {
    if a != [] && a[0] == b[0] && b[0] == c[0] {
      StrLessTransitive(a[1..], b[1..], c[1..]);
    }
  }

  lemma {:induction false} StrLessTotal(a: string, b: string)
    ensures a == b || StrLess(a, b) || StrLess(b, a)
  {
    if a != [] && b != [] && a[0] == b[0] {
      StrLessTotal(a[1..], b[1..]);
      if a[1..] == b[1..] {
        assert a == [a[0]] + a[1..] && b == [b[0]] + b[1..];
      }
    }
  }

  /** The slot's place in param_list: `(name, index)`. */
  function Place(p: Param): (string, int) {
    (p.name, p.index)
  }

  /** Tuple order on `(name, index)`; on distinct places it decides the
      whole tuple comparison. */
  predicate Less(p: Param, q: Param) {
    StrLess(p.name, q.name) || (p.name == q.name && p.index < q.index)
  }

  lemma LessIrreflexive(p: Param)
    ensures !Less(p, p)
  {
    StrLessIrreflexive(p.name);
  }

  lemma LessAsymmetric(p: Param, q: Param)
    requires Less(p, q)
    ensures !Less(q, p)
  {
    if StrLess(p.name, q.name) && StrLess(q.name, p.name) {
      StrLessTransitive(p.name, q.name, p.name);
      StrLessIrreflexive(p.name);
    }
    StrLessIrreflexive(p.name);
  }

  lemma LessTransitive(p: Param, q: Param, r: Param)
    requires Less(p, q) && Less(q, r)
    ensures Less(p, r)
  {
    if StrLess(p.name, q.name) && StrLess(q.name, r.name) {
      StrLessTransitive(p.name, q.name, r.name);
    }
  }

  lemma LessTotal(p: Param, q: Param)
    requires Place(p) != Place(q)
    ensures Less(p, q) || Less(q, p)
  {
    StrLessTotal(p.name, q.name);
  }

  /** Strictly ascending by place. */
  predicate Ascending(ps: seq<Param>) {
    forall i, j :: 0 <= i < j < |ps| ==> Less(ps[i], ps[j])
  }

  /** No two entries share a place. */
  predicate DistinctPlaces(ps: seq<Param>) {
    forall i, j :: 0 <= i < j < |ps| ==> Place(ps[i]) != Place(ps[j])
  }

  function Insert(p: Param, ps: seq<Param>): seq<Param> {
    if ps == [] then [p]
    else if Less(ps[0], p) then [ps[0]] + Insert(p, ps[1..])
    else [p] + ps
  }

  /** `param_list.sort()`, as an insertion sort on values. */
  function Sort(ps: seq<Param>): seq<Param> {
    if ps == [] then [] else Insert(ps[0], Sort(ps[1..]))
  }

  lemma {:induction false} InsertElements(p: Param, ps: seq<Param>)
    ensures multiset(Insert(p, ps)) == multiset(ps) + multiset{p}
    ensures forall q :: q in Insert(p, ps) <==> q == p || q in ps
  {
    if ps != [] && Less(ps[0], p) {
      InsertElements(p, ps[1..]);
      assert ps == [ps[0]] + ps[1..];
    }
  }

  lemma {:induction false} InsertAscending(p: Param, ps: seq<Param>)
    requires Ascending(ps)
    requires forall q :: q in ps ==> Place(q) != Place(p)
    ensures Ascending(Insert(p, ps))
  {
    if ps == [] {
    } else if Less(ps[0], p) {
      InsertAscending(p, ps[1..]);
      var r := Insert(p, ps[1..]);
      InsertElements(p, ps[1..]);
      forall q | q in r ensures Less(ps[0], q) {
        if q != p {
          var j :| 0 <= j < |ps[1..]| && ps[1..][j] == q;
          assert ps[j + 1] == q;
        }
      }
      assert Insert(p, ps) == [ps[0]] + r;
    } else {
      LessTotal(p, ps[0]);
      forall j | 0 < j < |ps| ensures Less(p, ps[j]) {
        LessTransitive(p, ps[0], ps[j]);
      }
      assert Insert(p, ps) == [p] + ps;
    }
  }

  /** The sort yields the same entries, ascending, when no two share a
      place. */
  lemma {:induction false} SortAscending(ps: seq<Param>)
    requires DistinctPlaces(ps)
    ensures Ascending(Sort(ps))
    ensures multiset(Sort(ps)) == multiset(ps)
  {
    if ps != [] {
      var rest := ps[1..];
      assert DistinctPlaces(rest);
      SortAscending(rest);
      forall q | q in Sort(rest) ensures Place(q) != Place(ps[0]) {
        assert q in multiset(rest);
        var j :| 0 <= j < |rest| && rest[j] == q;
        assert ps[j + 1] == q;
      }
      InsertAscending(ps[0], Sort(rest));
      InsertElements(ps[0], Sort(rest));
      assert ps == [ps[0]] + rest;
    }
  }

  /** An ascending list is determined by its entries: whatever order the
      dictionaries hand over their keys, the sorted list is the same. */
  lemma {:induction false} AscendingUnique(a: seq<Param>, b: seq<Param>)
    requires Ascending(a) && Ascending(b)
    requires forall p :: p in a <==> p in b
    ensures a == b
  {
    if a != [] { assert a[0] in b; }
    if b != [] { assert b[0] in a; }
    if a != [] && b != [] {
      if a[0] != b[0] {
        var i :| 0 <= i < |a| && a[i] == b[0];
        var j :| 0 <= j < |b| && b[j] == a[0];
        assert Less(a[0], b[0]) && Less(b[0], a[0]);
        LessAsymmetric(a[0], b[0]);
      }
      forall p ensures p in a[1..] <==> p in b[1..] {
        if p in a[1..] {
          var i :| 1 <= i < |a| && a[i] == p;
          if p == b[0] { LessIrreflexive(p); }
          assert p in b;
        }
        if p in b[1..] {
          var j :| 1 <= j < |b| && b[j] == p;
          if p == a[0] { LessIrreflexive(p); }
          assert p in a;
        }
      }
      AscendingUnique(a[1..], b[1..]);
      assert a == [a[0]] + a[1..] && b == [b[0]] + b[1..];
    }
  }

  // ---------------------------------------------------------------------
  // Collecting param_list from the two dictionaries.

  /** `p` is the entry of some known key. */
  ghost predicate KnownEntry(known: map<string, Option<string>>, toInt: string -> Option<int>, p: Param) {
    exists k :: k in known && SplitKey(k, toInt) == Some(Place(p)) && p.slot == Known(known[k])
  }

  /** `p` is the entry of some unknown key. */
  ghost predicate UnknownEntry(unknown: map<string, real>, toInt: string -> Option<int>, p: Param) {
    exists k :: k in unknown && SplitKey(k, toInt) == Some(Place(p)) && p.slot == Unknown(unknown[k])
  }

  ghost predicate IsEntry(known: map<string, Option<string>>, unknown: map<string, real>, toInt: string -> Option<int>, p: Param) {
    KnownEntry(known, toInt, p) || UnknownEntry(unknown, toInt, p)
  }

  /** Every key of both dictionaries splits. */
  ghost predicate KeysSplit(known: map<string, Option<string>>, unknown: map<string, real>, toInt: string -> Option<int>) {
    (forall k :: k in known ==> SplitKey(k, toInt).Some?) && (forall k :: k in unknown ==> SplitKey(k, toInt).Some?)
  }

  /** No two keys, known or unknown, split to the same place: with a clash
      the sort would compare the values themselves, which Python cannot do
      between text and a number. */
  ghost predicate UniquePlaces(known: map<string, Option<string>>, unknown: map<string, real>, toInt: string -> Option<int>) {
    (forall a, b :: a in known && b in known && SplitKey(a, toInt).Some? && SplitKey(a, toInt) == SplitKey(b, toInt) ==> a == b)
    && (forall a, b :: a in unknown && b in unknown && SplitKey(a, toInt).Some? && SplitKey(a, toInt) == SplitKey(b, toInt) ==> a == b)
    && (forall a, b :: a in known && b in unknown && SplitKey(a, toInt).Some? ==> SplitKey(a, toInt) != SplitKey(b, toInt))
  }

  /** The entry of known key `k`. */
  function KnownParam(known: map<string, Option<string>>, k: string, toInt: string -> Option<int>): Param
    requires k in known && SplitKey(k, toInt).Some?
  {
    Param(SplitKey(k, toInt).value.0, SplitKey(k, toInt).value.1, Known(known[k]))
  }

  /** The entry of unknown key `k`. */
  function UnknownParam(unknown: map<string, real>, k: string, toInt: string -> Option<int>): Param
    requires k in unknown && SplitKey(k, toInt).Some?
  {
    Param(SplitKey(k, toInt).value.0, SplitKey(k, toInt).value.1, Unknown(unknown[k]))
  }

  /** The entry `p` comes from a known key outside `todo`. */
  ghost predicate KnownDone(known: map<string, Option<string>>, todo: set<string>, toInt: string -> Option<int>, p: Param) {
    exists k :: k in known && k !in todo && SplitKey(k, toInt) == Some(Place(p)) && p.slot == Known(known[k])
  }

  /** The entry `p` comes from an unknown key outside `todo`. */
  ghost predicate UnknownDone(unknown: map<string, real>, todo: set<string>, toInt: string -> Option<int>, p: Param) {
    exists k :: k in unknown && k !in todo && SplitKey(k, toInt) == Some(Place(p)) && p.slot == Unknown(unknown[k])
  }

  /** The first loop, with the known keys in `todo` still to come: the
      list holds exactly the entries of the keys done, at distinct places. */
  ghost predicate KnownLoop(known: map<string, Option<string>>, todo: set<string>, toInt: string -> Option<int>, list: seq<Param>) {
    todo <= known.Keys
    && (forall k :: k in known && k !in todo ==> SplitKey(k, toInt).Some? && KnownParam(known, k, toInt) in list)
    && (forall p :: p in list ==> KnownDone(known, todo, toInt, p))
    && DistinctPlaces(list)
  }

  /** The second loop, with the unknown keys in `todo` still to come. */
  ghost predicate UnknownLoop(known: map<string, Option<string>>, unknown: map<string, real>, todo: set<string>,
                              toInt: string -> Option<int>, list: seq<Param>) {
    todo <= unknown.Keys
    && (forall k :: k in known ==> SplitKey(k, toInt).Some? && KnownParam(known, k, toInt) in list)
    && (forall k :: k in unknown && k !in todo ==> SplitKey(k, toInt).Some? && UnknownParam(unknown, k, toInt) in list)
    && (forall p :: p in list ==> KnownEntry(known, toInt, p) || UnknownDone(unknown, todo, toInt, p))
    && DistinctPlaces(list)
  }

  lemma DistinctAppend(list: seq<Param>, p: Param)
    requires DistinctPlaces(list)
    requires forall q :: q in list ==> Place(q) != Place(p)
    ensures DistinctPlaces(list + [p])
  {
    forall i, j | 0 <= i < j < |list| + 1 ensures Place((list + [p])[i]) != Place((list + [p])[j]) {
      if j == |list| {
        assert list[i] in list;
      }
    }
  }

  lemma KnownStep(known: map<string, Option<string>>, unknown: map<string, real>, todo: set<string>,
                  toInt: string -> Option<int>, list: seq<Param>, k: string)
    requires UniquePlaces(known, unknown, toInt)
    requires KnownLoop(known, todo, toInt, list)
    requires k in todo && SplitKey(k, toInt).Some?
    ensures KnownLoop(known, todo - {k}, toInt, list + [KnownParam(known, k, toInt)])
  {
    var p := KnownParam(known, k, toInt);
    forall q | q in list ensures Place(q) != Place(p) && KnownDone(known, todo - {k}, toInt, q) {
      var k' :| k' in known && k' !in todo && SplitKey(k', toInt) == Some(Place(q)) && q.slot == Known(known[k']);
      assert k' != k;
    }
    DistinctAppend(list, p);
    assert KnownDone(known, todo - {k}, toInt, p);
  }

  lemma UnknownStep(known: map<string, Option<string>>, unknown: map<string, real>, todo: set<string>,
                    toInt: string -> Option<int>, list: seq<Param>, k: string)
    requires UniquePlaces(known, unknown, toInt)
    requires UnknownLoop(known, unknown, todo, toInt, list)
    requires k in todo && SplitKey(k, toInt).Some?
    ensures UnknownLoop(known, unknown, todo - {k}, toInt, list + [UnknownParam(unknown, k, toInt)])
  {
    var p := UnknownParam(unknown, k, toInt);
    forall q | q in list
      ensures Place(q) != Place(p)
      ensures KnownEntry(known, toInt, q) || UnknownDone(unknown, todo - {k}, toInt, q)
    {
      if KnownEntry(known, toInt, q) {
        var k' :| k' in known && SplitKey(k', toInt) == Some(Place(q)) && q.slot == Known(known[k']);
      } else {
        var k' :| k' in unknown && k' !in todo && SplitKey(k', toInt) == Some(Place(q)) && q.slot == Unknown(unknown[k']);
        assert k' != k;
      }
    }
    DistinctAppend(list, p);
    assert UnknownDone(unknown, todo - {k}, toInt, p);
  }

  lemma LoopsMeet(known: map<string, Option<string>>, unknown: map<string, real>, toInt: string -> Option<int>, list: seq<Param>)
    requires KnownLoop(known, {}, toInt, list)
    ensures UnknownLoop(known, unknown, unknown.Keys, toInt, list)
  {
    forall p | p in list ensures KnownEntry(known, toInt, p) {
      var k :| k in known && k !in {} && SplitKey(k, toInt) == Some(Place(p)) && p.slot == Known(known[k]);
    }
  }

  lemma Collected(known: map<string, Option<string>>, unknown: map<string, real>, toInt: string -> Option<int>, list: seq<Param>)
    requires UnknownLoop(known, unknown, {}, toInt, list)
    ensures KeysSplit(known, unknown, toInt)
    ensures Ascending(Sort(list))
    ensures forall p :: p in Sort(list) <==> IsEntry(known, unknown, toInt, p)
  {
    SortAscending(list);
    forall p ensures p in Sort(list) <==> IsEntry(known, unknown, toInt, p) {
      assert p in Sort(list) <==> p in multiset(list);
      if p in list {
        if !KnownEntry(known, toInt, p) {
          var k :| k in unknown && k !in {} && SplitKey(k, toInt) == Some(Place(p)) && p.slot == Unknown(unknown[k]);
        }
      }
      if KnownEntry(known, toInt, p) {
        var k :| k in known && SplitKey(k, toInt) == Some(Place(p)) && p.slot == Known(known[k]);
        assert KnownParam(known, k, toInt) == p;
      }
      if UnknownEntry(unknown, toInt, p) {
        var k :| k in unknown && SplitKey(k, toInt) == Some(Place(p)) && p.slot == Unknown(unknown[k]);
        assert UnknownParam(unknown, k, toInt) == p;
      }
    }
  }

  /** The loops of find_params that fill param_list, then its sort. Python
      hands the keys over in insertion order; here they come in any order,
      and AscendingUnique shows that the sorted list does not depend on it. */
  method CollectParams(known: map<string, Option<string>>, unknown: map<string, real>, toInt: string -> Option<int>)
    returns (r: Result<seq<Param>, TemplateError>)
    requires UniquePlaces(known, unknown, toInt)
    ensures r.Ok? <==> KeysSplit(known, unknown, toInt)
    ensures r.Err? ==> (r.error.key in known || r.error.key in unknown) && SplitKey(r.error.key, toInt).None?
    ensures r.Ok? ==> Ascending(r.value) && forall p :: p in r.value <==> IsEntry(known, unknown, toInt, p)
  {
    var list: seq<Param> := [];
    var todo := known.Keys;
    while todo != {}
      invariant KnownLoop(known, todo, toInt, list)
      decreases |todo|
    {
      var k :| k in todo;
      var place := SplitKey(k, toInt);
      if place.None? {
        return Err(BadKey(k));
      }
      KnownStep(known, unknown, todo, toInt, list, k);
      list := list + [Param(place.value.0, place.value.1, Known(known[k]))];
      todo := todo - {k};
    }
    LoopsMeet(known, unknown, toInt, list);
    todo := unknown.Keys;
    while todo != {}
      invariant UnknownLoop(known, unknown, todo, toInt, list)
      decreases |todo|
    {
      var k :| k in todo;
      var place := SplitKey(k, toInt);
      if place.None? {
        return Err(BadKey(k));
      }
      UnknownStep(known, unknown, todo, toInt, list, k);
      list := list + [Param(place.value.0, place.value.1, Unknown(unknown[k]))];
      todo := todo - {k};
    }
    Collected(known, unknown, toInt, list);
    r := Ok(Sort(list));
  }

  // ---------------------------------------------------------------------
  // Laying out the template.

  /** The `str.format` placeholder for the k-th unknown. */
  function Placeholder(k: nat): string {
    "{" + NatToString(k) + "}"
  }

  /** The variable name of an unknown: `name` at index 0, `name.index`
      otherwise. */
  function VarName(p: Param): string {
    if p.index == 0 then p.name else p.name + "." + IntToString(p.index)
  }

  /** What one entry contributes to a `+name=value` string, with `field`
      standing for an unknown's value: index 0 opens a ` +name` token and
      any other index a `,`; a known value follows literally (after `=` at
      index 0), a bare flag adds nothing, and an unknown adds `field` (after
      `=` at index 0). */
  function Render(p: Param, field: string): string {
    (if p.index == 0 then " +" + p.name else ",")
    + match p.slot
      case Known(None) => ""
      case Known(Some(v)) => if p.index == 0 then "=" + v else v
      case Unknown(_) => (if p.index == 0 then "=" else "") + field
  }

  /** What one entry appends to the template when `k` unknowns precede it:
      an unknown's field is the placeholder of the k-th format argument. */
  function Piece(p: Param, k: nat): string {
    Render(p, Placeholder(k))
  }

  /** The number of unknowns among the first `n` entries: `var_index`. */
  function CountUnknown(ps: seq<Param>, n: nat): nat
    requires n <= |ps|
  {
    if n == 0 then 0 else CountUnknown(ps, n - 1) + (if ps[n - 1].slot.Unknown? then 1 else 0)
  }

  /** The template laid out from the first `n` entries, before strip(). */
  function Layout(ps: seq<Param>, n: nat): string
    requires n <= |ps|
  {
    if n == 0 then [] else Layout(ps, n - 1) + Piece(ps[n - 1], CountUnknown(ps, n - 1))
  }

  /** The initial guesses of the unknowns among the first `n` entries. */
  function StartValues(ps: seq<Param>, n: nat): seq<real>
    requires n <= |ps|
  {
    if n == 0 then []
    else StartValues(ps, n - 1) + (if ps[n - 1].slot.Unknown? then [ps[n - 1].slot.guess] else [])
  }

  /** The variable names of the unknowns among the first `n` entries. */
  function VarNames(ps: seq<Param>, n: nat): seq<string>
    requires n <= |ps|
  {
    if n == 0 then []
    else VarNames(ps, n - 1) + (if ps[n - 1].slot.Unknown? then [VarName(ps[n - 1])] else [])
  }

  lemma LayoutNext(ps: seq<Param>, i: nat)
    requires i < |ps|
    ensures Layout(ps, i + 1) == Layout(ps, i) + Piece(ps[i], CountUnknown(ps, i))
    ensures CountUnknown(ps, i + 1) == CountUnknown(ps, i) + (if ps[i].slot.Unknown? then 1 else 0)
    ensures StartValues(ps, i + 1) == StartValues(ps, i) + (if ps[i].slot.Unknown? then [ps[i].slot.guess] else [])
    ensures VarNames(ps, i + 1) == VarNames(ps, i) + (if ps[i].slot.Unknown? then [VarName(ps[i])] else [])
  {
  }

  /** The template loop of find_params over the sorted param_list. */
  method BuildTemplate(ps: seq<Param>) returns (template: string, startValues: seq<real>, varNames: seq<string>)
    ensures template == Strip(Layout(ps, |ps|))
    ensures startValues == StartValues(ps, |ps|) && varNames == VarNames(ps, |ps|)
  {
    var t: string := [];
    startValues, varNames := [], [];
    var varIndex := 0;
    for i := 0 to |ps|
      invariant t == Layout(ps, i) && varIndex == CountUnknown(ps, i)
      invariant startValues == StartValues(ps, i) && varNames == VarNames(ps, i)
    {
      var p := ps[i];
      ghost var t0 := t;
      var opening := if p.index == 0 then " +" + p.name else ",";
      t := t + opening;
      var rest: string := [];
      match p.slot {
        case Known(v) =>
          if v.Some? {
            rest := if p.index == 0 then "=" + v.value else v.value;
          }
        case Unknown(guess) =>
          startValues := startValues + [guess];
          if p.index == 0 {
            varNames := varNames + [p.name];
            rest := "=";
          } else {
            varNames := varNames + [p.name + "." + IntToString(p.index)];
          }
          rest := rest + "{" + NatToString(varIndex) + "}";
          varIndex := varIndex + 1;
      }
      t := t + rest;
      assert opening + rest == Render(p, Placeholder(CountUnknown(ps, i)));
      assert t == t0 + (opening + rest);
      LayoutNext(ps, i);
    }
    template := Strip(t);
  }

  // ---------------------------------------------------------------------
  // What the layout promises.

  /** There are as many initial guesses and variable names as unknowns,
      that is, as placeholders. */
  lemma {:induction false} UnknownCounts(ps: seq<Param>, n: nat)
    requires n <= |ps|
    ensures |StartValues(ps, n)| == CountUnknown(ps, n) == |VarNames(ps, n)|
    ensures CountUnknown(ps, n) <= n
  {
    if n > 0 {
      UnknownCounts(ps, n - 1);
    }
  }

  /** Placeholder numbers grow along the list. */
  lemma {:induction false} CountMonotone(ps: seq<Param>, m: nat, n: nat)
    requires m <= n <= |ps|
    ensures CountUnknown(ps, m) <= CountUnknown(ps, n)
    decreases n
  {
    if m < n {
      CountMonotone(ps, m, n - 1);
    }
  }

  /** The unknown at position i is the k-th one, k = CountUnknown(ps, i): it
      gets placeholder `{k}`, and its initial guess and variable name are
      the k-th of start_values and var_names. */
  lemma {:induction false} UnknownAt(ps: seq<Param>, n: nat, i: nat)
    requires i < n <= |ps| && ps[i].slot.Unknown?
    ensures |StartValues(ps, n)| == |VarNames(ps, n)| == CountUnknown(ps, n)
    ensures CountUnknown(ps, i) < CountUnknown(ps, n)
    ensures StartValues(ps, n)[CountUnknown(ps, i)] == ps[i].slot.guess
    ensures VarNames(ps, n)[CountUnknown(ps, i)] == VarName(ps[i])
  {
    UnknownCounts(ps, n);
    UnknownCounts(ps, n - 1);
    if i < n - 1 {
      UnknownAt(ps, n - 1, i);
    } else {
      UnknownCounts(ps, i);
    }
  }

  /** No two unknowns share a placeholder. */
  lemma PlaceholdersDistinct(ps: seq<Param>, i: nat, j: nat)
    requires i < j < |ps| && ps[i].slot.Unknown? && ps[j].slot.Unknown?
    ensures CountUnknown(ps, i) < CountUnknown(ps, j)
  {
    CountMonotone(ps, i + 1, j);
  }

  /** Every placeholder below the number of unknowns belongs to one. */
  lemma {:induction false} PlaceholdersOnto(ps: seq<Param>, n: nat, k: nat)
    requires n <= |ps| && k < CountUnknown(ps, n)
    ensures exists i: nat :: i < n && ps[i].slot.Unknown? && CountUnknown(ps, i) == k
  {
    if k < CountUnknown(ps, n - 1) {
      PlaceholdersOnto(ps, n - 1, k);
      var i: nat :| i < n - 1 && ps[i].slot.Unknown? && CountUnknown(ps, i) == k;
      assert i < n;
    } else {
      assert ps[n - 1].slot.Unknown? && CountUnknown(ps, n - 1) == k;
    }
  }

  /** The entries are laid out in list order: each one's text follows
      directly on that of the entries before it. */
  lemma {:induction false} LayoutPrefix(ps: seq<Param>, m: nat, n: nat)
    requires m <= n <= |ps|
    ensures |Layout(ps, m)| <= |Layout(ps, n)| && Layout(ps, n)[..|Layout(ps, m)|] == Layout(ps, m)
    decreases n
  {
    if m < n {
      LayoutPrefix(ps, m, n - 1);
      var a, b := Layout(ps, m), Layout(ps, n - 1);
      assert Layout(ps, n)[..|b|] == b;
      assert Layout(ps, n)[..|a|] == b[..|a|];
    }
  }

  /** Text before a first `.` is determined: `a.s == b.t` with `a` and
      `b` free of `.` gives `a == b` and `s == t`. */
  lemma {:induction false} SplitAtDot(a: string, s: string, b: string, t: string)
    requires '.' !in a && '.' !in b
    requires a + "." + s == b + "." + t
    ensures a == b && s == t
  {
    var v := a + "." + s;
    assert s == v[|a| + 1..] && t == v[|b| + 1..];
    assert a != [] ==> a[0] == v[0] && a[0] in a;
    assert b != [] ==> b[0] == v[0] && b[0] in b;
    assert v[|a|] == '.' && v[|b|] == '.';
    if a != [] && b != [] {
      assert v[1..] == a[1..] + "." + s;
      assert v[1..] == b[1..] + "." + t;
      SplitAtDot(a[1..], s, b[1..], t);
      assert a == [a[0]] + a[1..] && b == [b[0]] + b[1..];
    }
  }

  /** With names free of `.`, entries at distinct places have distinct
      variable names. */
  lemma VarNameInjective(p: Param, q: Param)
    requires '.' !in p.name && '.' !in q.name
    requires VarName(p) == VarName(q)
    ensures Place(p) == Place(q)
  {
    assert p.index != 0 ==> VarName(p)[|p.name|] == '.';
    assert q.index != 0 ==> VarName(q)[|q.name|] == '.';
    if p.index != 0 && q.index != 0 {
      SplitAtDot(p.name, IntToString(p.index), q.name, IntToString(q.index));
      IntToStringInjective(p.index, q.index);
    }
  }

  /** Each variable name is that of an unknown before position n. */
  lemma {:induction false} VarNamesFrom(ps: seq<Param>, n: nat, x: string)
    requires n <= |ps| && x in VarNames(ps, n)
    ensures exists i :: 0 <= i < n && ps[i].slot.Unknown? && VarName(ps[i]) == x
  {
    if x in VarNames(ps, n - 1) {
      VarNamesFrom(ps, n - 1, x);
      var i :| 0 <= i < n - 1 && ps[i].slot.Unknown? && VarName(ps[i]) == x;
    }
  }

  /** No two entries of var_names are equal when the list comes from
      CollectParams: its names hold no `.` and its places are distinct. */
  lemma {:induction false} VarNamesDistinct(ps: seq<Param>, n: nat)
    requires n <= |ps| && Ascending(ps)
    requires forall i :: 0 <= i < |ps| ==> '.' !in ps[i].name
    ensures forall a, b :: 0 <= a < b < |VarNames(ps, n)| ==> VarNames(ps, n)[a] != VarNames(ps, n)[b]
  {
    if n > 0 {
      VarNamesDistinct(ps, n - 1);
      var prev := VarNames(ps, n - 1);
      if ps[n - 1].slot.Unknown? && VarName(ps[n - 1]) in prev {
        VarNamesFrom(ps, n - 1, VarName(ps[n - 1]));
        var i :| 0 <= i < n - 1 && ps[i].slot.Unknown? && VarName(ps[i]) == VarName(ps[n - 1]);
        VarNameInjective(ps[i], ps[n - 1]);
        LessIrreflexive(ps[i]);
        assert Less(ps[i], ps[n - 1]);
      }
    }
  }

  /** The template starts and ends with no whitespace, and strip() took
      away only the whitespace around the laid-out text. */
  lemma TemplateTrimmed(ps: seq<Param>)
    ensures var t := Strip(Layout(ps, |ps|));
      t != [] ==> !IsSpace(t[0]) && !IsSpace(t[|t| - 1])
    ensures var l, t := Layout(ps, |ps|), Strip(Layout(ps, |ps|));
      var a := |l| - |StripLeft(l)|;
      a + |t| <= |l| && l[a..a + |t|] == t
      && (forall j :: 0 <= j < a ==> IsSpace(l[j]))
      && (forall j :: a + |t| <= j < |l| ==> IsSpace(l[j]))
  {
    StripEnds(Layout(ps, |ps|));
    StripInfix(Layout(ps, |ps|));
  }

  /** `+a=1,~2 +b` on the target side: a known value, an unknown at index 1
      and a bare flag. */
  lemma ExampleTemplate(ps: seq<Param>)
    requires ps == [Param("a", 0, Known(Some("1"))), Param("a", 1, Unknown(2.0)), Param("b", 0, Known(None))]
    ensures Strip(Layout(ps, 3)) == "+a=1,{0} +b"
    ensures StartValues(ps, 3) == [2.0] && VarNames(ps, 3) == ["a.1"]
  {
    assert NatToString(0) == "0" && IntToString(1) == "1";
    assert CountUnknown(ps, 1) == 0;
    assert CountUnknown(ps, 2) == 1;
    assert Piece(ps[0], 0) == " +a=1";
    assert Piece(ps[1], 0) == ",{0}";
    assert Piece(ps[2], 1) == " +b";
    assert Layout(ps, 1) == " +a=1";
    assert Layout(ps, 2) == " +a=1,{0}";
    var l := Layout(ps, 3);
    assert l == " +a=1,{0} +b";
    assert StartValues(ps, 1) == [] && VarNames(ps, 1) == [];
    assert VarName(ps[1]) == "a" + "." + "1" == "a.1";
    assert StartValues(ps, 2) == [2.0] && VarNames(ps, 2) == ["a.1"];
    assert StripLeft(l) == l[1..];
    assert StripRight(l[1..]) == l[1..];
  }
}
