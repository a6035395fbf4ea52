/**
 * What `getMatch` promises about its result, proved about `Outcome`, the function that
 * `RouteMatcher.GetMatch` is verified against.
 */
module RouteMatcherFacts {
  import opened Results
  import opened JsText
  import opened RegExp
  import opened PatternCompiler
  import opened RouteMatcher

  // ---------------------------------------------------------------------------------------
  // Matching and constraints

  /** The order in which the keys are tried does not matter: all of them must accept. */
  lemma AdmittedAnyOrder(names: seq<string>, rp: map<string, RouteParam>, constraints: map<string, Constraint>)
    requires forall k :: k in names ==> k in rp && rp[k].value.Str?
    ensures Admitted(KeyOrder(names), rp, constraints)
      <==> forall k :: k in names ==> Accepts(ConstraintOf(constraints, k), rp[k])
  {
    var keys := KeyOrder(names);
    if Admitted(keys, rp, constraints) {
      forall k | k in names
        ensures Accepts(ConstraintOf(constraints, k), rp[k])
      {
        assert k in keys;
        var i :| 0 <= i < |keys| && keys[i] == k;
      }
    }
  }

  /**
   * Once the expression has matched, there is a result exactly when every declared name's
   * constraint accepts that name's raw capture. Coercions never make a match fail.
   */
  lemma MatchedIff(names: seq<string>, caps: seq<string>, constraints: map<string, Constraint>,
                   coercions: map<string, Coercion>)
    ensures Matched(names, caps, constraints, coercions).Some?
      <==> forall k :: k in names ==> Accepts(ConstraintOf(constraints, k), Records(names, caps)[k])
  {
    AdmittedAnyOrder(names, Records(names, caps), constraints);
  }

  /**
   * A result has one record per declared name, named after it, at the name's last
   * declaration, and a name without a coercion keeps the text captured at that position.
   */
  lemma ResultShape(names: seq<string>, caps: seq<string>, constraints: map<string, Constraint>,
                    coercions: map<string, Coercion>, rp: map<string, RouteParam>)
    requires Matched(names, caps, constraints, coercions) == Some(rp)
    ensures forall k :: k in rp <==> k in names
    ensures forall k :: k in rp ==> rp[k].name == k && IsLast(names, k, rp[k].position)
    ensures forall k :: k in rp && k !in coercions ==> rp[k].value == Str(Capture(caps, rp[k].position))
  {
    var keys := KeyOrder(names);
    assert rp == CoerceAll(keys, Records(names, caps), coercions);
    CoercedRecordsShape(names, caps, keys, coercions, rp);
  }

  /** The coerced records keep the names and positions of `Records`, and uncoerced values. */
  lemma CoercedRecordsShape(names: seq<string>, caps: seq<string>, keys: seq<string>,
                            coercions: map<string, Coercion>, rp: map<string, RouteParam>)
    requires NoDup(keys)
    requires forall k :: k in keys ==> k in names
    requires rp == CoerceAll(keys, Records(names, caps), coercions)
    ensures forall k :: k in rp <==> k in names
    ensures forall k :: k in rp ==> rp[k].name == k && IsLast(names, k, rp[k].position)
    ensures forall k :: k in rp && k !in coercions ==> rp[k].value == Str(Capture(caps, rp[k].position))
  {
    var records := Records(names, caps);
    assert forall k :: k in rp ==> rp[k].name == records[k].name && rp[k].position == records[k].position;
  }

  /** The maps restricted to the declared names. */
  function Only<V>(m: map<string, V>, names: seq<string>): (r: map<string, V>)
    ensures forall k :: k in r <==> k in m && k in names
    ensures forall k :: k in r ==> r[k] == m[k]
  {
    map k | k in m && k in names :: m[k]
  }

  /** Coercing only reads the coercions of the keys it walks. */
  lemma {:induction false} CoerceAllOnly(keys: seq<string>, rp: map<string, RouteParam>,
                                         coercions: map<string, Coercion>, names: seq<string>)
    requires NoDup(keys)
    requires forall k :: k in keys ==> k in rp && rp[k].value.Str? && k in names
    ensures CoerceAll(keys, rp, Only(coercions, names)) == CoerceAll(keys, rp, coercions)
  {
    if keys != [] {
      var n := |keys| - 1;
      assert forall k :: k in keys[..n] ==> k in keys;
      CoerceAllOnly(keys[..n], rp, coercions, names);
      var before := CoerceAll(keys[..n], rp, coercions);
      var key, only := keys[n], Only(coercions, names);
      assert key in names;
      assert key in only <==> key in coercions;
      assert key in only ==> only[key] == coercions[key];
      assert CoerceKey(before, key, only) == CoerceKey(before, key, coercions);
    }
  }

  /** Constraints of undeclared names are never looked at. */
  lemma AdmittedOnly(keys: seq<string>, rp: map<string, RouteParam>, constraints: map<string, Constraint>,
                     names: seq<string>)
    requires forall k :: k in keys ==> k in rp && rp[k].value.Str? && k in names
    ensures Admitted(keys, rp, constraints) == Admitted(keys, rp, Only(constraints, names))
  {
    forall i | 0 <= i < |keys|
      ensures ConstraintOf(constraints, keys[i]) == ConstraintOf(Only(constraints, names), keys[i])
    {
      assert keys[i] in names;
    }
  }

  /** Constraints and coercions for names the pattern does not declare are never looked at. */
  lemma IgnoresUndeclared(names: seq<string>, caps: seq<string>, constraints: map<string, Constraint>,
                          coercions: map<string, Coercion>)
    ensures Matched(names, caps, constraints, coercions)
      == Matched(names, caps, Only(constraints, names), Only(coercions, names))
  {
    var rp := Records(names, caps);
    var keys := KeyOrder(names);
    AdmittedOnly(keys, rp, constraints, names);
    CoerceAllOnly(keys, rp, coercions, names);
  }

  // ---------------------------------------------------------------------------------------
  // Coercion order

  /** Coercing more keys leaves the values of the keys already coerced alone. */
  lemma {:induction false} CoerceAllSettled(keys: seq<string>, rp: map<string, RouteParam>,
                                            coercions: map<string, Coercion>, m: nat, k: string)
    requires NoDup(keys)
    requires forall k :: k in keys ==> k in rp && rp[k].value.Str?
    requires m <= |keys| && k in keys[..m]
    ensures NoDup(keys[..m])
    ensures CoerceAll(keys, rp, coercions)[k] == CoerceAll(keys[..m], rp, coercions)[k]
  {
    assert forall k :: k in keys[..m] ==> k in keys;
    NoDupPrefix(keys, m);
    if m < |keys| {
      var n := |keys| - 1;
      assert forall k :: k in keys[..n] ==> k in keys;
      assert keys[..n][..m] == keys[..m];
      assert k in keys[..n];
      assert k != keys[n];
      var before := CoerceAll(keys[..n], rp, coercions);
      assert k in keys && k in rp && k in before;
      var after := CoerceKey(before, keys[n], coercions);
      assert after[k] == before[k];
      assert CoerceAll(keys, rp, coercions) == after;
      CoerceAllSettled(keys[..n], rp, coercions, m, k);
    } else {
      assert keys[..m] == keys;
    }
  }

  /**
   * `keys.forEach(coerce)` coerces each key once, in order: the coercion of the j-th key
   * reads its raw capture and sees the keys before it already coerced (with their final
   * values) and the keys after it still raw.
   */
  lemma CoercedInOrder(keys: seq<string>, rp: map<string, RouteParam>,
                       coercions: map<string, Coercion>, j: nat)
    requires NoDup(keys)
    requires forall k :: k in keys ==> k in rp && rp[k].value.Str?
    requires j < |keys|
    ensures NoDup(keys[..j])
    ensures var before := CoerceAll(keys[..j], rp, coercions);
      && (forall i :: 0 <= i < j ==> before[keys[i]] == CoerceAll(keys, rp, coercions)[keys[i]])
      && (forall i :: j <= i < |keys| ==> before[keys[i]] == rp[keys[i]])
      && CoerceAll(keys, rp, coercions)[keys[j]].value
         == if keys[j] in coercions then Coerced(coercions[keys[j]], rp[keys[j]].value.s, before)
            else rp[keys[j]].value
  {
    SettledBefore(keys, rp, coercions, j);
    RawAfter(keys, rp, coercions, j);
    CoercedAt(keys, rp, coercions, j);
  }

  /** The keys before the j-th already hold their final values. */
  lemma SettledBefore(keys: seq<string>, rp: map<string, RouteParam>,
                      coercions: map<string, Coercion>, j: nat)
    requires NoDup(keys)
    requires forall k :: k in keys ==> k in rp && rp[k].value.Str?
    requires j < |keys|
    ensures NoDup(keys[..j])
    ensures forall i :: 0 <= i < j ==>
      CoerceAll(keys[..j], rp, coercions)[keys[i]] == CoerceAll(keys, rp, coercions)[keys[i]]
  {
    NoDupPrefix(keys, j);
    forall i | 0 <= i < j
      ensures CoerceAll(keys[..j], rp, coercions)[keys[i]] == CoerceAll(keys, rp, coercions)[keys[i]]
    {
      assert keys[..j][i] == keys[i];
      CoerceAllSettled(keys, rp, coercions, j, keys[i]);
    }
  }

  /** The j-th key and those after it are still raw when the j-th is coerced. */
  lemma RawAfter(keys: seq<string>, rp: map<string, RouteParam>,
                 coercions: map<string, Coercion>, j: nat)
    requires NoDup(keys)
    requires forall k :: k in keys ==> k in rp && rp[k].value.Str?
    requires j < |keys|
    ensures NoDup(keys[..j])
    ensures forall i :: j <= i < |keys| ==> CoerceAll(keys[..j], rp, coercions)[keys[i]] == rp[keys[i]]
  {
    NoDupPrefix(keys, j);
    forall i | j <= i < |keys|
      ensures CoerceAll(keys[..j], rp, coercions)[keys[i]] == rp[keys[i]]
    {
      NoDupLater(keys, j, i);
    }
  }

  /** The j-th key's final value is its coercion applied to its raw capture and the keys before it. */
  lemma CoercedAt(keys: seq<string>, rp: map<string, RouteParam>,
                  coercions: map<string, Coercion>, j: nat)
    requires NoDup(keys)
    requires forall k :: k in keys ==> k in rp && rp[k].value.Str?
    requires j < |keys|
    ensures NoDup(keys[..j])
    ensures CoerceAll(keys, rp, coercions)[keys[j]].value
         == if keys[j] in coercions then Coerced(coercions[keys[j]], rp[keys[j]].value.s, CoerceAll(keys[..j], rp, coercions))
            else rp[keys[j]].value
  {
    CoerceAllNext(keys, rp, coercions, j);
    RawAfter(keys, rp, coercions, j);
    assert keys[j] in keys[..j + 1] by { assert keys[..j + 1][j] == keys[j]; }
    CoerceAllSettled(keys, rp, coercions, j + 1, keys[j]);
  }

  // ---------------------------------------------------------------------------------------
  // The named coercions

  /** Lower-casing twice is lower-casing once. */
  lemma LowerTwice(s: string)
    ensures Lower(Lower(s)) == Lower(s)
  {
    assert forall i :: 0 <= i < |s| ==> LowerChar(LowerChar(s[i])) == LowerChar(s[i]);
  }

  /** `boolean` ignores case: the capture and its lower-cased form coerce alike. */
  lemma BooleanIgnoresCase(raw: string, rp: map<string, RouteParam>)
    ensures Coerced(Named("boolean"), raw, rp) == Coerced(Named("boolean"), Lower(raw), rp)
    ensures Coerced(Named("boolean"), raw, rp).Bool?
  {
    LowerTwice(raw);
  }

  /** `boolean` is true for `t`, `true`, `1` and `on` in any case, and false for anything else. */
  lemma BooleanWords(rp: map<string, RouteParam>)
    ensures Coerced(Named("boolean"), "TRUE", rp) == Bool(true)
    ensures Coerced(Named("boolean"), "On", rp) == Bool(true)
    ensures Coerced(Named("boolean"), "T", rp) == Bool(true)
    ensures Coerced(Named("boolean"), "1", rp) == Bool(true)
    ensures Coerced(Named("boolean"), "yes", rp) == Bool(false)
    ensures Coerced(Named("boolean"), "0", rp) == Bool(false)
    ensures Coerced(Named("boolean"), "", rp) == Bool(false)
  {
    assert Lower("TRUE") == "true";
    assert Lower("On") == "on";
    assert Lower("T") == "t";
    assert Lower("1") == "1";
    assert Lower("yes") == "yes";
    assert Lower("0") == "0";
  }

  /**
   * `int` reads a capture that starts with a decimal numeral as that number, with or
   * without a minus sign, ignoring what follows the digits.
   */
  lemma IntOfNumeral(n: nat, tail: string, rp: map<string, RouteParam>)
    requires tail == [] || (!IsDigit(tail[0]) && (n != 0 || (tail[0] != 'x' && tail[0] != 'X')))
    ensures Coerced(Named("int"), ShowNat(n) + tail, rp) == Int(n)
    ensures Coerced(Named("int"), "-" + (ShowNat(n) + tail), rp) == Int(-(n as int))
  {
    ParseIntShowNat(n, tail);
    CoercedInt(ShowNat(n) + tail, n, rp);
    NegativeInt(n, tail, "-" + (ShowNat(n) + tail), rp);
  }

  lemma NegativeInt(n: nat, tail: string, raw: string, rp: map<string, RouteParam>)
    requires tail == [] || (!IsDigit(tail[0]) && (n != 0 || (tail[0] != 'x' && tail[0] != 'X')))
    requires raw == "-" + (ShowNat(n) + tail)
    ensures Coerced(Named("int"), raw, rp) == Int(-(n as int))
  {
    ParseIntNegativeShowNat(n, tail);
    CoercedInt(raw, -(n as int), rp);
  }

  lemma CoercedInt(raw: string, v: int, rp: map<string, RouteParam>)
    requires ParseInt(raw) == Some(v)
    ensures Coerced(Named("int"), raw, rp) == Int(v)
  {
  }

  /** `int` gives NaN for a capture that starts with a character no number can start with. */
  lemma IntOfWord(raw: string, rp: map<string, RouteParam>)
    requires raw != [] && !IsWhiteSpace(raw[0]) && !IsDigit(raw[0]) && raw[0] != '-' && raw[0] != '+'
    ensures Coerced(Named("int"), raw, rp) == NaN
  {
    assert TrimStart(raw) == raw;
    assert DigitRun(raw, 10) == 0;
    assert raw[..0] == [];
  }

  // ---------------------------------------------------------------------------------------
  // Matchers built by `parse`

  /**
   * In a match of a parsed pattern every uncoerced record holds a non-empty capture; a
   * `:name` capture holds no `/`, a `:name*` capture no line terminator.
   */
  lemma ParsedCaptures(pattern: string, ignoreCase: bool, constraints: map<string, Constraint>,
                       coercions: map<string, Coercion>, url: string, rp: map<string, RouteParam>, k: string)
    requires Outcome(Compile(pattern, ignoreCase), Names(Tokenize(pattern)), constraints, coercions, url) == Some(rp)
    requires k in rp && k !in coercions
    ensures rp[k].position < |Greediness(Tokenize(pattern))|
    ensures rp[k].value.Str? && rp[k].value.s != []
    ensures Greediness(Tokenize(pattern))[rp[k].position] ==>
      forall j :: 0 <= j < |rp[k].value.s| ==> !IsLineTerminator(rp[k].value.s[j])
    ensures !Greediness(Tokenize(pattern))[rp[k].position] ==>
      forall j :: 0 <= j < |rp[k].value.s| ==> rp[k].value.s[j] != '/'
  {
    var names := Names(Tokenize(pattern));
    var m := Exec(Compile(pattern, ignoreCase), url);
    assert m.Some?;
    var caps := m.value;
    assert Matched(names, caps, constraints, coercions) == Some(rp);
    ResultShape(names, caps, constraints, coercions, rp);
    CompiledCaptures(pattern, ignoreCase, url);
    assert rp[k].value == Str(caps[rp[k].position]);
  }

  /** A pattern that declares no names yields the empty record set whenever it matches. */
  lemma NoNames(caps: seq<string>, constraints: map<string, Constraint>, coercions: map<string, Coercion>)
    ensures Matched([], caps, constraints, coercions) == Some(map[])
  {
    assert Records([], caps) == map[];
    assert KeyOrder([]) == [];
  }

  /** A pattern with no `:`, `\` or `*` matches exactly itself and yields no records. */
  lemma LiteralRoute(pattern: string, constraints: map<string, Constraint>,
                     coercions: map<string, Coercion>, url: string)
    requires forall i :: 0 <= i < |pattern| ==> IsPlain(pattern[i])
    ensures Outcome(Compile(pattern, false), Names(Tokenize(pattern)), constraints, coercions, url)
      == if url == pattern then Some(map[]) else None
  {
    PlainPatternExact(pattern, url);
    NoNames([], constraints, coercions);
  }

  /**
   * With `caseInsensitive`, a plain pattern gives `{}` for exactly the paths that spell it
   * up to ASCII case, and `null` for any other path.
   */
  lemma LiteralRouteIgnoringCase(pattern: string, constraints: map<string, Constraint>,
                                 coercions: map<string, Coercion>, url: string)
    requires forall i :: 0 <= i < |pattern| ==> IsPlain(pattern[i])
    ensures Outcome(Compile(pattern, true), Names(Tokenize(pattern)), constraints, coercions, url)
      == if |url| == |pattern| && forall i :: 0 <= i < |url| ==> SameChar(url[i], pattern[i], true)
         then Some(map[]) else None
  {
    PlainPatternExact(pattern, url);
    PlainPatternFolds(pattern, url);
    NoNames([], constraints, coercions);
  }
}
