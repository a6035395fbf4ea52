/**
 * `RouteMatcher`: a compiled route pattern and what it makes of a URL. `getMatch` runs the
 * regular expression, gathers the captures into one record per declared name, checks each
 * name's constraint and then applies each name's coercion, in the order the names were
 * first declared.
 */
module RouteMatcher {
  import opened Results
  import opened JsText
  import opened RegExp
  import opened PatternCompiler

  /** The values a parameter can hold once coerced. */
  datatype Value =
    | Str(s: string)          // the captured text, before any coercion
    | Int(i: int)             // `parseInt` of it
    | NaN                     // `parseInt` of text with no digits
    | NumberOf(text: string)  // `Number` of it (left abstract)
    | Bool(b: bool)           // the `boolean` coercion
    | Other(id: nat)          // whatever else a coercion function returns

  /** The record `getMatch` keeps for each declared name. */
  datatype RouteParam = RouteParam(position: nat, name: string, value: Value)

  /** A constraint on one parameter. */
  datatype Constraint =
    | Unset                          // no constraint, or a falsy one
    | Equals(text: string)           // a string the raw value must equal
    | Pattern(test: string -> bool)  // a RegExp, applied with `test` to the raw value
    | All(items: seq<Constraint>)    // an array: every item must accept
    | Predicate(holds: RouteParam -> bool) // a function, called with the record

  /** A coercion of one parameter. */
  datatype Coercion =
    | Named(kind: string)                                  // 'int', 'number', 'boolean'; any other has no effect
    | Convert(f: (string, map<string, RouteParam>) -> Value)    // a function, given the value and all records

  /** Why building a matcher fails. */
  datatype Error = UrlRequired | RegexRequired | UrlNotString | NoLeadingSlash

  /** A value passed where the source expects a URL string. */
  datatype Input = Text(s: string) | NotText

  /** The options `parse` reads. */
  datatype Options = Options(
    caseInsensitive: bool,
    constraints: Option<map<string, Constraint>>,
    coercions: Option<map<string, Coercion>>)

  /** `x || fallback` for a value that is either missing or an object. */
  function OrElse<T>(x: Option<T>, fallback: T): T {
    match x
    case Some(v) => v
    case None => fallback
  }

  // ---------------------------------------------------------------------------------------
  // Constraints

  /** `applyConstraint`: whether a constraint accepts a parameter whose value is still raw. */
  predicate Accepts(c: Constraint, p: RouteParam)
    requires p.value.Str?
    decreases c
  {
    match c
    case Unset => true
    case Equals(text) => text == [] || text == p.value.s
    case Pattern(test) => test(p.value.s)
    case All(items) => forall i :: 0 <= i < |items| ==> Accepts(items[i], p)
    case Predicate(holds) => holds(p)
  }

  /** The constraints an array constraint stands for once nested arrays are flattened. */
  function Leaves(c: Constraint): seq<Constraint>
    decreases c, 1
  {
    match c
    case All(items) => LeavesOf(items)
    case _ => [c]
  }

  function LeavesOf(items: seq<Constraint>): seq<Constraint>
    decreases items, 0
  {
    if items == [] then [] else Leaves(items[0]) + LeavesOf(items[1..])
  }

  /** Whether every constraint of a list accepts. */
  predicate AllAccept(cs: seq<Constraint>, p: RouteParam)
    requires p.value.Str?
  {
    forall i :: 0 <= i < |cs| ==> Accepts(cs[i], p)
  }

  /** Whether no constraint of a list is itself an array. */
  predicate NoArrays(cs: seq<Constraint>) {
    forall i :: 0 <= i < |cs| ==> !cs[i].All?
  }

  /** Nesting arrays changes nothing: a constraint accepts exactly when all its leaves do. */
  lemma {:induction false} AcceptsLeaves(c: Constraint, p: RouteParam)
    requires p.value.Str?
    ensures Accepts(c, p) <==> AllAccept(Leaves(c), p)
    ensures NoArrays(Leaves(c))
    decreases c, 1
  {
    match c
    case All(items) =>
      AcceptsLeavesOf(items, p);
      assert Leaves(c) == LeavesOf(items);
      assert Accepts(c, p) <==> AllAccept(items, p);
    case _ =>
      assert Leaves(c) == [c];
      assert AllAccept([c], p) <==> Accepts([c][0], p);
  }

  lemma {:induction false} AcceptsLeavesOf(items: seq<Constraint>, p: RouteParam)
    requires p.value.Str?
    ensures AllAccept(items, p) <==> AllAccept(LeavesOf(items), p)
    ensures NoArrays(LeavesOf(items))
    decreases items, 0
  {
    if items != [] {
      AcceptsLeaves(items[0], p);
      AcceptsLeavesOf(items[1..], p);
      var head, tail := Leaves(items[0]), LeavesOf(items[1..]);
      assert LeavesOf(items) == head + tail;
      AllAcceptAppend(head, tail, p);
      NoArraysAppend(head, tail);
      AllAcceptCons(items, p);
    }
  }

  lemma AllAcceptAppend(a: seq<Constraint>, b: seq<Constraint>, p: RouteParam)
    requires p.value.Str?
    ensures AllAccept(a + b, p) <==> AllAccept(a, p) && AllAccept(b, p)
  {
    if AllAccept(a + b, p) {
      forall i | 0 <= i < |a| ensures Accepts(a[i], p) {
        assert (a + b)[i] == a[i];
      }
      forall i | 0 <= i < |b| ensures Accepts(b[i], p) {
        assert (a + b)[|a| + i] == b[i];
      }
    }
    if AllAccept(a, p) && AllAccept(b, p) {
      forall i | 0 <= i < |a + b| ensures Accepts((a + b)[i], p) {
        if i < |a| {
          assert (a + b)[i] == a[i];
        } else {
          assert (a + b)[i] == b[i - |a|];
        }
      }
    }
  }

  lemma NoArraysAppend(a: seq<Constraint>, b: seq<Constraint>)
    requires NoArrays(a) && NoArrays(b)
    ensures NoArrays(a + b)
  {
    forall i | 0 <= i < |a + b| ensures !(a + b)[i].All? {
      if i >= |a| {
        assert (a + b)[i] == b[i - |a|];
      }
    }
  }

  lemma AllAcceptCons(items: seq<Constraint>, p: RouteParam)
    requires p.value.Str? && items != []
    ensures AllAccept(items, p) <==> Accepts(items[0], p) && AllAccept(items[1..], p)
  {
    if Accepts(items[0], p) && AllAccept(items[1..], p) {
      forall i | 0 <= i < |items| ensures Accepts(items[i], p) {
        if i > 0 {
          assert items[i] == items[1..][i - 1];
        }
      }
    }
  }

  /**
   * `applyConstraint` as the source runs it: an array is walked item by item and the walk
   * stops at the first item that rejects.
   */
  method ApplyConstraint(c: Constraint, p: RouteParam) returns (ok: bool)
    requires p.value.Str?
    ensures ok == Accepts(c, p)
    decreases c
  {
    match c
    case Unset =>
      return true;
    case Pattern(test) =>
      return test(p.value.s);
    case All(items) =>
      for i := 0 to |items|
        invariant forall j :: 0 <= j < i ==> Accepts(items[j], p)
      {
        var itemOk := ApplyConstraint(items[i], p);
        if !itemOk {
          return false;
        }
      }
      return true;
    case Predicate(holds) =>
      return holds(p);
    case Equals(text) =>
      if text == [] {
        return true;
      }
      return text == p.value.s;
  }

  /** `constraints[key]`, with a missing key read as no constraint. */
  function ConstraintOf(constraints: map<string, Constraint>, key: string): Constraint {
    if key in constraints then constraints[key] else Unset
  }

  // ---------------------------------------------------------------------------------------
  // The parameter records

  /** `match[i + 1] || ''`: the capture of the group for the i-th name, or `''` if none. */
  function Capture(caps: seq<string>, i: nat): string {
    if i < |caps| then caps[i] else ""
  }

  /** Whether `i` is the last position at which `name` is declared. */
  predicate IsLast(names: seq<string>, name: string, i: nat) {
    i < |names| && names[i] == name && forall j :: i < j < |names| ==> names[j] != name
  }

  /**
   * The `reduce` over the declared names: one record per distinct name, holding its name,
   * the position of its last declaration and that position's capture as raw text.
   */
  function Records(names: seq<string>, caps: seq<string>): (rp: map<string, RouteParam>)
    ensures forall k :: k in rp <==> k in names
    ensures forall k :: k in rp ==>
      && rp[k].name == k
      && IsLast(names, k, rp[k].position)
      && rp[k].value == Str(Capture(caps, rp[k].position))
  {
    if names == [] then map[]
    else
      var n := |names| - 1;
      var before := Records(names[..n], caps);
      assert forall k :: k in names <==> k in names[..n] || k == names[n];
      assert forall k :: k in before && k != names[n] ==> IsLast(names, k, before[k].position) by {
        forall k | k in before && k != names[n] {
          IsLastExtend(names, k, before[k].position);
        }
      }
      before[names[n] := RouteParam(n, names[n], Str(Capture(caps, n)))]
  }

  /** A later declaration of another name leaves a name's last position where it was. */
  lemma IsLastExtend(names: seq<string>, name: string, i: nat)
    requires names != [] && names[|names| - 1] != name
    requires IsLast(names[..|names| - 1], name, i)
    ensures IsLast(names, name, i)
  {
  }

  /** A sequence in which no element occurs twice: the last one is new, and so on before it. */
  predicate NoDup<T(==)>(s: seq<T>) {
    s != [] ==> s[|s| - 1] !in s[..|s| - 1] && NoDup(s[..|s| - 1])
  }

  /** Every prefix of a sequence without repetitions is one too. */
  lemma {:induction false} NoDupPrefix<T>(s: seq<T>, m: nat)
    requires NoDup(s) && m <= |s|
    ensures NoDup(s[..m])
  {
    if m < |s| {
      var n := |s| - 1;
      assert s[..n][..m] == s[..m];
      NoDupPrefix(s[..n], m);
    } else {
      assert s[..m] == s;
    }
  }

  /** In a sequence without repetitions, no element occurs before its own position. */
  lemma {:induction false} NoDupLater<T>(s: seq<T>, j: nat, i: nat)
    requires NoDup(s) && j <= i < |s|
    ensures s[i] !in s[..j]
  {
    var n := |s| - 1;
    if i == n {
      assert forall x :: x in s[..j] ==> x in s[..n];
    } else {
      assert s[..n][i] == s[i] && s[..n][..j] == s[..j];
      NoDupLater(s[..n], j, i);
    }
  }

  /** The position at which `name` is first declared. */
  function FirstIndex(names: seq<string>, name: string): (i: nat)
    requires name in names
    ensures i < |names| && names[i] == name
    ensures forall j :: 0 <= j < i ==> names[j] != name
  {
    if names[0] == name then 0 else 1 + FirstIndex(names[1..], name)
  }

  /**
   * `Object.keys` of the records: each distinct name once, in the order names were first
   * declared (a later duplicate overwrites the record but keeps the key where it was).
   */
  function KeyOrder(names: seq<string>): (keys: seq<string>)
    ensures NoDup(keys)
    ensures forall k :: k in keys <==> k in names
  {
    if names == [] then []
    else
      var n := |names| - 1;
      var before := KeyOrder(names[..n]);
      assert (before + [names[n]])[..|before|] == before;
      if names[n] in before then before else before + [names[n]]
  }

  /** The keys come in the order in which their names were first declared. */
  lemma {:induction false} KeyOrderFirstSeen(names: seq<string>)
    ensures forall i, j :: 0 <= i < j < |KeyOrder(names)| ==>
      FirstIndex(names, KeyOrder(names)[i]) < FirstIndex(names, KeyOrder(names)[j])
  {
    if names != [] {
      var n := |names| - 1;
      var before := KeyOrder(names[..n]);
      KeyOrderFirstSeen(names[..n]);
      FirstIndexPrefix(names, n);
      var keys := KeyOrder(names);
      forall i, j | 0 <= i < j < |keys|
        ensures FirstIndex(names, keys[i]) < FirstIndex(names, keys[j])
      {
        assert keys[i] in before;
        if j < |before| {
          assert keys[j] in before;
        } else {
          assert keys[j] == names[n] && names[n] !in before;
        }
      }
    }
  }

  /** Declarations after a name's first one do not move its first position. */
  lemma FirstIndexPrefix(names: seq<string>, n: nat)
    requires n <= |names|
    ensures forall k :: k in names[..n] ==> FirstIndex(names, k) == FirstIndex(names[..n], k)
    ensures forall k :: k in names && k !in names[..n] ==> FirstIndex(names, k) >= n
  {
    forall k | k in names[..n]
      ensures FirstIndex(names, k) == FirstIndex(names[..n], k)
    {
      var f, f' := FirstIndex(names, k), FirstIndex(names[..n], k);
      assert names[f'] == names[..n][f'] == k;
      assert f <= f';
      assert names[..n][f] == names[f];
    }
    forall k | k in names && k !in names[..n]
      ensures FirstIndex(names, k) >= n
    {
      assert forall j :: 0 <= j < n ==> names[..n][j] == names[j];
    }
  }

  /** Whether every key's constraint accepts its record, in the order the source tries them. */
  predicate Admitted(keys: seq<string>, rp: map<string, RouteParam>, constraints: map<string, Constraint>)
    requires forall k :: k in keys ==> k in rp && rp[k].value.Str?
  {
    forall i :: 0 <= i < |keys| ==> Accepts(ConstraintOf(constraints, keys[i]), rp[keys[i]])
  }

  // ---------------------------------------------------------------------------------------
  // Coercions

  /** The text `boolean` coerces to `true`, once lower-cased. */
  predicate IsTruthyWord(s: string) {
    s == "t" || s == "true" || s == "1" || s == "on"
  }

  /** The value `coerce` computes for a raw capture, given all records as they stand. */
  function Coerced(coercion: Coercion, raw: string, rp: map<string, RouteParam>): Value {
    match coercion
    case Named(kind) =>
      if kind == "int" then
        (match ParseInt(raw) case Some(n) => Int(n) case None => NaN)
      else if kind == "number" then NumberOf(raw)
      else if kind == "boolean" then Bool(IsTruthyWord(Lower(raw)))
      else Str(raw)
    case Convert(f) => f(raw, rp)
  }

  /** `coerce(key)`: replaces the record's value when the key has a coercion. */
  function CoerceKey(rp: map<string, RouteParam>, key: string, coercions: map<string, Coercion>): (r: map<string, RouteParam>)
    requires key in rp && rp[key].value.Str?
    ensures r.Keys == rp.Keys
    ensures forall k :: k in rp && k != key ==> r[k] == rp[k]
    ensures r[key].name == rp[key].name && r[key].position == rp[key].position
    ensures key !in coercions ==> r == rp
  {
    if key in coercions then
      rp[key := rp[key].(value := Coerced(coercions[key], rp[key].value.s, rp))]
    else rp
  }

  /**
   * `keys.forEach(coerce)`: each key in turn, so a coercion function sees the keys before
   * it already coerced. Only values change; names outside `keys` are untouched.
   */
  function CoerceAll(keys: seq<string>, rp: map<string, RouteParam>, coercions: map<string, Coercion>): (r: map<string, RouteParam>)
    requires NoDup(keys)
    requires forall k :: k in keys ==> k in rp && rp[k].value.Str?
    ensures r.Keys == rp.Keys
    ensures forall k :: k in rp ==> r[k].name == rp[k].name && r[k].position == rp[k].position
    ensures forall k :: k in rp && (k !in keys || k !in coercions) ==> r[k] == rp[k]
  {
    if keys == [] then rp
    else
      var n := |keys| - 1;
      assert forall k :: k in keys[..n] ==> k in keys;
      CoerceKey(CoerceAll(keys[..n], rp, coercions), keys[n], coercions)
  }

  // ---------------------------------------------------------------------------------------
  // getMatch

  /**
   * What `getMatch` returns once the expression has matched with the given captures:
   * `None` (the source's `null`) when a constraint rejects, otherwise the records, coerced.
   */
  function Matched(names: seq<string>, caps: seq<string>, constraints: map<string, Constraint>,
                   coercions: map<string, Coercion>): (m: Option<map<string, RouteParam>>)
    ensures m.Some? ==> forall k :: k in m.value <==> k in names
  {
    var rp := Records(names, caps);
    var keys := KeyOrder(names);
    if Admitted(keys, rp, constraints) then Some(CoerceAll(keys, rp, coercions)) else None
  }

  /** What `getMatch` returns: `None` when the expression does not match the URL. */
  function Outcome(regex: Regex, names: seq<string>, constraints: map<string, Constraint>,
                   coercions: map<string, Coercion>, url: string): (m: Option<map<string, RouteParam>>)
    ensures m.Some? ==> Exec(regex, url).Some? && forall k :: k in m.value <==> k in names
  {
    match Exec(regex, url)
    case None => None
    case Some(caps) => Matched(names, caps, constraints, coercions)
  }

  /** A compiled route: the pattern, its expression, its names and the per-name options. */
  class RouteMatcher {
    const url: string
    const regex: Regex
    const params: seq<string>
    const constraints: map<string, Constraint>
    const coercions: map<string, Coercion>

    constructor (url: string, regex: Regex, params: seq<string>,
                 constraints: map<string, Constraint>, coercions: map<string, Coercion>)
      requires url != []
      ensures this.url == url && this.regex == regex && this.params == params
      ensures this.constraints == constraints && this.coercions == coercions
    {
      this.url := url;
      this.regex := regex;
      this.params := params;
      this.constraints := constraints;
      this.coercions := coercions;
    }

    /**
     * `new RouteMatcher(url, regex, params, constraints, coercions)`: fails without a URL,
     * then without a RegExp; missing lists and maps default to empty ones.
     */
    static method Create(url: string, regex: Option<Regex>, params: Option<seq<string>>,
                         constraints: Option<map<string, Constraint>>,
                         coercions: Option<map<string, Coercion>>)
      returns (r: Result<RouteMatcher, Error>)
      ensures url == [] <==> r == Failure(UrlRequired)
      ensures url != [] && regex.None? <==> r == Failure(RegexRequired)
      ensures url != [] && regex.Some? <==> r.Success?
      ensures r.Success? ==>
        && fresh(r.value)
        && r.value.url == url && Some(r.value.regex) == regex
        && r.value.params == OrElse(params, [])
        && r.value.constraints == OrElse(constraints, map[])
        && r.value.coercions == OrElse(coercions, map[])
    {
      if url == [] {
        return Failure(UrlRequired);
      }
      if regex.None? {
        return Failure(RegexRequired);
      }
      var m := new RouteMatcher(url, regex.value, OrElse(params, []), OrElse(constraints, map[]),
                                OrElse(coercions, map[]));
      return Success(m);
    }

    /**
     * `RouteMatcher.parse(url, options)`: scans the pattern once, left to right, appending
     * each token's fragment to the expression and each declared name to the list.
     */
    static method Parse(url: Input, options: Option<Options>) returns (r: Result<RouteMatcher, Error>)
      ensures url.NotText? <==> r == Failure(UrlNotString)
      ensures url.Text? && (url.s == [] || url.s[0] != '/') <==> r == Failure(NoLeadingSlash)
      ensures url.Text? && url.s != [] && url.s[0] == '/' ==> r.Success?
      ensures r.Success? ==>
        var opts := OrElse(options, Options(false, None, None));
        && fresh(r.value)
        && r.value.url == url.s
        && r.value.regex == Compile(url.s, opts.caseInsensitive)
        && r.value.params == Names(Tokenize(url.s))
        && r.value.constraints == OrElse(opts.constraints, map[])
        && r.value.coercions == OrElse(opts.coercions, map[])
    {
      if url.NotText? {
        return Failure(UrlNotString);
      }
      var s := url.s;
      if s == [] || s[0] != '/' {
        return Failure(NoLeadingSlash);
      }
      var opts := OrElse(options, Options(false, None, None));
      var regex, params := Scan(s);
      var compiled := Compile(s, opts.caseInsensitive);
      assert compiled.source == regex;
      r := Create(s, Some(compiled), Some(params), Some(OrElse(opts.constraints, map[])),
                  Some(OrElse(opts.coercions, map[])));
    }

    /**
     * The scanning loop of `parse`: walks the pattern once, left to right, appending each
     * token's fragment to the expression source and each declared name to the list.
     */
    static method Scan(s: string) returns (regex: string, params: seq<string>)
      ensures regex == Source(s)
      ensures params == Names(Tokenize(s))
    {
      var i := 0;
      params := [];
      regex := "^";
      while i < |s|
        invariant Scanned(s, i, regex, params)
        decreases |s| + 1 - i
      {
        ghost var i0, regex0, params0 := i, regex, params;
        var c := s[i];
        if c == ':' {
          var n := WordPrefix(s[i + 1..]);
          if n == 0 {
            regex := regex + Quote([c]);
            i := i + 1;
            ScanColon(s, i0, regex0, params0, i, regex, params);
          } else {
            var greedy := i + 1 + n < |s| && s[i + 1 + n] == '*';
            params := params + [s[i + 1..i + 1 + n]];
            regex := regex + "(";
            if !greedy {
              regex := regex + "[^/]+";
            } else {
              regex := regex + ".+";
            }
            regex := regex + ")";
            i := i + n + (if greedy then 1 else 0);
            i := i + 1;
            ScanParam(s, i0, regex0, params0, n, greedy, i, regex, params);
          }
        } else if c == '\\' {
          i := i + 1;
          if i < |s| {
            regex := regex + Quote([s[i]]);
          }
          i := i + 1;
          ScanEscape(s, i0, regex0, params0, i, regex, params);
        } else if c == '*' {
          regex := regex + ".*";
          i := i + 1;
          ScanStar(s, i0, regex0, params0, i, regex, params);
        } else {
          regex := regex + Quote([c]);
          i := i + 1;
          ScanPlain(s, i0, regex0, params0, i, regex, params);
        }
      }
      ScannedEnd(s, i, regex, params);
      regex := regex + "$";
    }

    /**
     * `getMatch(url)`: the records of a match, or `None` when the expression does not match
     * or a constraint rejects.
     */
    method GetMatch(url: string) returns (r: Option<map<string, RouteParam>>)
      ensures r == Outcome(regex, params, constraints, coercions, url)
    {
      var m := Exec(regex, url);
      if m.None? {
        return None;
      }
      var caps := m.value;
      var rp := CollectRecords(params, caps);
      var keys := KeyOrder(params);
      var ok := CheckConstraints(keys, rp, constraints);
      if !ok {
        return None;
      }
      rp := CoerceKeys(keys, rp, coercions);
      return Some(rp);
    }
  }

  /** The `reduce` that builds one record per name; a later duplicate overwrites. */
  method CollectRecords(names: seq<string>, caps: seq<string>) returns (rp: map<string, RouteParam>)
    ensures rp == Records(names, caps)
  {
    rp := map[];
    for i := 0 to |names|
      invariant rp == Records(names[..i], caps)
    {
      assert names[..i + 1][..i] == names[..i];
      rp := rp[names[i] := RouteParam(i, names[i], Str(Capture(caps, i)))];
    }
    assert names[..|names|] == names;
  }

  /** The loop over `Object.keys(routeParams)` that stops at the first constraint that rejects. */
  method CheckConstraints(keys: seq<string>, rp: map<string, RouteParam>, constraints: map<string, Constraint>)
    returns (ok: bool)
    requires forall k :: k in keys ==> k in rp && rp[k].value.Str?
    ensures ok == Admitted(keys, rp, constraints)
  {
    for i := 0 to |keys|
      invariant forall j :: 0 <= j < i ==> Accepts(ConstraintOf(constraints, keys[j]), rp[keys[j]])
    {
      var accepted := ApplyConstraint(ConstraintOf(constraints, keys[i]), rp[keys[i]]);
      if !accepted {
        return false;
      }
    }
    return true;
  }

  /** `keys.forEach(coerce)`. */
  method CoerceKeys(keys: seq<string>, rp: map<string, RouteParam>, coercions: map<string, Coercion>)
    returns (r: map<string, RouteParam>)
    requires NoDup(keys)
    requires forall k :: k in keys ==> k in rp && rp[k].value.Str?
    ensures r == CoerceAll(keys, rp, coercions)
  {
    r := rp;
    for i := 0 to |keys|
      invariant NoDup(keys[..i])
      invariant r == CoerceAll(keys[..i], rp, coercions)
    {
      CoerceAllNext(keys, rp, coercions, i);
      r := CoerceKey(r, keys[i], coercions);
    }
    assert keys[..|keys|] == keys;
  }

  /** Coercing one more key of a duplicate-free list extends the coercion of its prefix. */
  lemma CoerceAllNext(keys: seq<string>, rp: map<string, RouteParam>, coercions: map<string, Coercion>, i: nat)
    requires NoDup(keys) && i < |keys|
    requires forall k :: k in keys ==> k in rp && rp[k].value.Str?
    ensures NoDup(keys[..i]) && NoDup(keys[..i + 1]) && keys[i] !in keys[..i]
    ensures CoerceAll(keys[..i + 1], rp, coercions)
         == CoerceKey(CoerceAll(keys[..i], rp, coercions), keys[i], coercions)
  {
    NoDupPrefix(keys, i + 1);
    NoDupPrefix(keys, i);
    NoDupLater(keys, i, i);
    assert keys[..i + 1][..i] == keys[..i];
    assert keys[..i + 1][i] == keys[i];
  }

  /** The scanner, past position `i`, has produced the expression source and names so far. */
  predicate Scanned(s: string, i: nat, regex: string, params: seq<string>) {
    && i <= |s| + 1
    && regex + Render(Tokenize(Rest(s, i))) == "^" + Render(Tokenize(s))
    && params + Names(Tokenize(Rest(s, i))) == Names(Tokenize(s))
  }

  /** One round moves the scan on by what it consumed, adding its fragments and names. */
  lemma ScannedStep(s: string, i: nat, regex: string, params: seq<string>)
    requires i < |s| && Scanned(s, i, regex, params)
    ensures Scanned(s, i + Step(s[i..]).used, regex + Render(Step(s[i..]).toks),
                    params + Names(Step(s[i..]).toks))
  {
    var p := s[i..];
    assert Rest(s, i) == p;
    ScanRound(p);
    assert Rest(s, i + Step(p).used) == p[Step(p).used..];
    Regroup(regex, Render(Step(p).toks), Render(Tokenize(p[Step(p).used..])));
    Regroup(params, Names(Step(p).toks), Names(Tokenize(p[Step(p).used..])));
  }

  /** At the end of the pattern, the source only needs its closing anchor. */
  lemma ScannedEnd(s: string, i: nat, regex: string, params: seq<string>)
    requires i >= |s| && Scanned(s, i, regex, params)
    ensures regex + "$" == Source(s)
    ensures params == Names(Tokenize(s))
  {
    assert Rest(s, i) == [];
    assert regex + [] == regex;
    assert params + [] == params;
  }

  /** A `:` not followed by a word character is taken literally. */
  lemma ScanColon(s: string, i: nat, regex: string, params: seq<string>,
                  next: nat, regex': string, params': seq<string>)
    requires i < |s| && s[i] == ':' && WordPrefix(s[i + 1..]) == 0
    requires Scanned(s, i, regex, params)
    requires next == i + 1 && regex' == regex + Quote([':']) && params' == params
    ensures Scanned(s, next, regex', params')
  {
    StepColon(s, i);
    assert params + [] == params;
    ScannedNext(s, i, regex, params, next, regex', params');
  }

  /** A `:` followed by a word run declares a parameter, greedy when a `*` follows. */
  lemma ScanParam(s: string, i: nat, regex: string, params: seq<string>, n: nat, greedy: bool,
                  next: nat, regex': string, params': seq<string>)
    requires i < |s| && s[i] == ':' && n == WordPrefix(s[i + 1..]) > 0
    requires greedy == (i + 1 + n < |s| && s[i + 1 + n] == '*')
    requires Scanned(s, i, regex, params)
    requires next == i + n + (if greedy then 1 else 0) + 1
    requires greedy ==> regex' == regex + "(" + ".+" + ")"
    requires !greedy ==> regex' == regex + "(" + "[^/]+" + ")"
    requires params' == params + [s[i + 1..i + 1 + n]]
    ensures Scanned(s, next, regex', params')
  {
    StepParam(s, i, n, greedy);
    var r := Step(s[i..]);
    if greedy {
      GroupText(regex, ".+");
    } else {
      GroupText(regex, "[^/]+");
    }
    assert regex' == regex + Render(r.toks);
    assert next == i + r.used;
    ScannedNext(s, i, regex, params, next, regex', params');
  }

  /** A `\` takes the next character literally, and at the end of the pattern yields nothing. */
  lemma ScanEscape(s: string, i: nat, regex: string, params: seq<string>,
                   next: nat, regex': string, params': seq<string>)
    requires i < |s| && s[i] == '\\'
    requires Scanned(s, i, regex, params)
    requires next == i + 2 && params' == params
    requires regex' == if i + 1 < |s| then regex + Quote([s[i + 1]]) else regex
    ensures Scanned(s, next, regex', params')
  {
    StepEscape(s, i);
    assert params + [] == params;
    assert regex + [] == regex;
    ScannedNext(s, i, regex, params, next, regex', params');
  }

  /** A bare `*` is a wildcard. */
  lemma ScanStar(s: string, i: nat, regex: string, params: seq<string>,
                 next: nat, regex': string, params': seq<string>)
    requires i < |s| && s[i] == '*'
    requires Scanned(s, i, regex, params)
    requires next == i + 1 && regex' == regex + ".*" && params' == params
    ensures Scanned(s, next, regex', params')
  {
    StepStar(s, i);
    assert params + [] == params;
    ScannedNext(s, i, regex, params, next, regex', params');
  }

  /** Any other character is taken literally. */
  lemma ScanPlain(s: string, i: nat, regex: string, params: seq<string>,
                  next: nat, regex': string, params': seq<string>)
    requires i < |s| && s[i] != ':' && s[i] != '\\' && s[i] != '*'
    requires Scanned(s, i, regex, params)
    requires next == i + 1 && regex' == regex + Quote([s[i]]) && params' == params
    ensures Scanned(s, next, regex', params')
  {
    StepPlain(s, i);
    assert params + [] == params;
    ScannedNext(s, i, regex, params, next, regex', params');
  }

  /** One round takes the scan from position `i` to `next`, with the source and names it adds. */
  lemma ScannedNext(s: string, i: nat, regex: string, params: seq<string>,
                    next: nat, regex': string, params': seq<string>)
    requires i < |s| && Scanned(s, i, regex, params)
    requires next == i + Step(s[i..]).used || (next == |s| + 1 && i + Step(s[i..]).used == |s|)
    requires regex' == regex + Render(Step(s[i..]).toks)
    requires params' == params + Names(Step(s[i..]).toks)
    ensures Scanned(s, next, regex', params')
  {
    ScannedStep(s, i, regex, params);
    assert Rest(s, next) == Rest(s, i + Step(s[i..]).used);
  }

  /** A `:` not followed by a word character is taken literally. */
  lemma StepColon(s: string, i: nat)
    requires i < |s| && s[i] == ':' && WordPrefix(s[i + 1..]) == 0
    ensures Step(s[i..]).used == 1
    ensures Render(Step(s[i..]).toks) == Quote([':'])
    ensures Names(Step(s[i..]).toks) == []
  {
    assert s[i..][1..] == s[i + 1..];
    RenderRound(Step(s[i..]).toks);
  }

  /** A `:` followed by a word run declares a parameter, greedy when a `*` follows. */
  lemma StepParam(s: string, i: nat, n: nat, greedy: bool)
    requires i < |s| && s[i] == ':' && n == WordPrefix(s[i + 1..]) > 0
    requires greedy == (i + 1 + n < |s| && s[i + 1 + n] == '*')
    ensures Step(s[i..]).used == 1 + n + (if greedy then 1 else 0)
    ensures greedy ==> Render(Step(s[i..]).toks) == "(" + ".+" + ")"
    ensures !greedy ==> Render(Step(s[i..]).toks) == "(" + "[^/]+" + ")"
    ensures Names(Step(s[i..]).toks) == [s[i + 1..i + 1 + n]]
  {
    var p := s[i..];
    assert p[1..] == s[i + 1..];
    assert p[1..1 + n] == s[i + 1..i + 1 + n];
    RenderRound(Step(p).toks);
  }

  /** A `\` takes the next character literally, and at the end of the pattern yields nothing. */
  lemma StepEscape(s: string, i: nat)
    requires i < |s| && s[i] == '\\'
    ensures Step(s[i..]).used == (if i + 1 < |s| then 2 else 1)
    ensures Render(Step(s[i..]).toks) == if i + 1 < |s| then Quote([s[i + 1]]) else []
    ensures Names(Step(s[i..]).toks) == []
  {
    RenderRound(Step(s[i..]).toks);
  }

  /** A bare `*` is a wildcard. */
  lemma StepStar(s: string, i: nat)
    requires i < |s| && s[i] == '*'
    ensures Step(s[i..]).used == 1
    ensures Render(Step(s[i..]).toks) == ".*"
    ensures Names(Step(s[i..]).toks) == []
  {
    RenderRound(Step(s[i..]).toks);
  }

  /** Any other character is taken literally. */
  lemma StepPlain(s: string, i: nat)
    requires i < |s| && s[i] != ':' && s[i] != '\\' && s[i] != '*'
    ensures Step(s[i..]).used == 1
    ensures Render(Step(s[i..]).toks) == Quote([s[i]])
    ensures Names(Step(s[i..]).toks) == []
  {
    RenderRound(Step(s[i..]).toks);
  }

  /** `regex += '('`, then the group body, then `')'`, in three appends. */
  lemma GroupText(regex: string, body: string)
    ensures regex + "(" + body + ")" == regex + ("(" + body + ")")
  {
  }

  /** The fragments and names of at most one token. */
  lemma RenderRound(toks: seq<Tok>)
    requires |toks| <= 1
    ensures Render(toks) == if toks == [] then [] else Fragment(toks[0])
    ensures Names(toks) == if toks != [] && toks[0].Param? then [toks[0].name] else []
  {
    if toks != [] {
      assert toks[1..] == [];
      assert Fragment(toks[0]) + [] == Fragment(toks[0]);
    }
  }

  lemma Regroup<T>(a: seq<T>, b: seq<T>, c: seq<T>)
    ensures (a + b) + c == a + (b + c)
  {
  }

  /** What is left of the pattern once the scanner has passed position `i`. */
  function Rest(s: string, i: nat): string {
    if i <= |s| then s[i..] else []
  }
}
