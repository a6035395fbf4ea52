/**
 * The part of JavaScript's RegExp that the route compiler relies on: reading a pattern
 * source written in the fragment of the syntax the compiler emits, and `exec` on it.
 * Within that fragment a source is `^`, then a sequence of literal characters (a character
 * that is not a syntax character, or a backslash and a character it stands for), groups
 * `([^/]+)` and `(.+)`, and runs `.*`, then `$`.
 */
module RegExp {
  import opened Results
  import opened JsText

  /** The characters with a meaning of their own in a pattern: `^ $ \ . * + ? ( ) [ ] { } |`. */
  predicate IsSyntaxChar(c: char) {
    || c == '^' || c == '$' || c == '\\' || c == '.' || c == '*' || c == '+' || c == '?'
    || c == '(' || c == ')' || c == '[' || c == ']' || c == '{' || c == '}' || c == '|'
  }

  /** The characters that a backslash turns into themselves when the `u` flag is absent (among others). */
  predicate IsIdentityEscape(c: char) {
    IsSyntaxChar(c) || c == '/' || c == '=' || c == '!' || c == '<' || c == '>' || c == ':' || c == '-'
  }

  /** One element of a pattern in the fragment. */
  datatype Atom =
    | Literal(c: char)      // the character itself, or the same letter in the other case under `i`
    | Group(greedy: bool)   // `([^/]+)` when not greedy, `(.+)` when greedy: a capturing group
    | AnyRun                // `.*`: any run of characters other than line terminators, captured by nothing

  const SegmentGroup: string := "([^/]+)"
  const RestGroup: string := "(.+)"
  const AnyText: string := ".*"

  function Cons(a: Atom, rest: Option<seq<Atom>>): Option<seq<Atom>> {
    match rest
    case None => None
    case Some(atoms) => Some([a] + atoms)
  }

  /** Reads a pattern body written in the fragment; `None` for anything outside it. */
  function Read(s: string): Option<seq<Atom>>
    decreases |s|
  {
    if s == [] then Some([])
    else if s[0] == '\\' then
      if |s| >= 2 && IsIdentityEscape(s[1]) then Cons(Literal(s[1]), Read(s[2..])) else None
    else if SegmentGroup <= s then Cons(Group(false), Read(s[|SegmentGroup|..]))
    else if RestGroup <= s then Cons(Group(true), Read(s[|RestGroup|..]))
    else if AnyText <= s then Cons(AnyRun, Read(s[|AnyText|..]))
    else if IsSyntaxChar(s[0]) then None
    else Cons(Literal(s[0]), Read(s[1..]))
  }

  /** Reads a whole source, anchored at both ends by `^` and `$`. */
  function ReadAnchored(source: string): Option<seq<Atom>> {
    if |source| >= 2 && source[0] == '^' && source[|source| - 1] == '$'
    then Read(source[1..|source| - 1])
    else None
  }

  /** The source and flags a RegExp object is built from. */
  datatype RegexSource = RegexSource(source: string, ignoreCase: bool)

  /** A RegExp object whose source lies in the fragment. */
  type Regex = r: RegexSource | ReadAnchored(r.source).Some? witness RegexSource("^$", false)

  /** The atoms of a RegExp object. */
  function AtomsOf(r: Regex): seq<Atom> {
    ReadAnchored(r.source).value
  }

  /** Whether `.` (when `dot`) or `[^/]` (otherwise) accepts the character. */
  predicate Admits(dot: bool, c: char) {
    if dot then !IsLineTerminator(c) else c != '/'
  }

  /** Whether the run an atom other than a literal stands for is written with `.`. */
  predicate Dot(a: Atom) {
    a.AnyRun? || (a.Group? && a.greedy)
  }

  /** The longest prefix that `.` or `[^/]` accepts character by character. */
  function Longest(s: string, dot: bool): (n: nat)
    ensures n <= |s|
    ensures forall i :: 0 <= i < n ==> Admits(dot, s[i])
    ensures n == |s| || !Admits(dot, s[n])
  {
    if s == [] || !Admits(dot, s[0]) then 0 else 1 + Longest(s[1..], dot)
  }

  /** Character comparison, with ASCII case folding under the `i` flag. */
  predicate SameChar(c: char, d: char, ignoreCase: bool) {
    c == d || (ignoreCase && UpperChar(c) == UpperChar(d))
  }

  /** For each capturing group, in order, whether it is the greedy kind `(.+)`. */
  function GroupKinds(atoms: seq<Atom>): seq<bool> {
    if atoms == [] then []
    else (if atoms[0].Group? then [atoms[0].greedy] else []) + GroupKinds(atoms[1..])
  }

  /** One capture per group, each non-empty and made only of characters its group accepts. */
  predicate CapturesFit(atoms: seq<Atom>, caps: seq<string>) {
    var kinds := GroupKinds(atoms);
    && |caps| == |kinds|
    && forall i :: 0 <= i < |caps| ==>
         caps[i] != [] && forall j :: 0 <= j < |caps[i]| ==> Admits(kinds[i], caps[i][j])
  }

  /**
   * Matching of `atoms` against the whole of `s` as the backtracking engine does it: each
   * run is tried longest first, then one character shorter at a time, until the rest of
   * the pattern matches the rest of the input. The result lists the captures in group order.
   */
  function Run(atoms: seq<Atom>, s: string, ignoreCase: bool): (r: Option<seq<string>>)
    ensures r.Some? ==> CapturesFit(atoms, r.value)
    decreases |atoms|, 1, 0
  {
    if atoms == [] then (if s == [] then Some([]) else None)
    else match atoms[0]
      case Literal(c) =>
        if s != [] && SameChar(s[0], c, ignoreCase) then Run(atoms[1..], s[1..], ignoreCase) else None
      case _ =>
        assert atoms == [atoms[0]] + atoms[1..];
        Backtrack(atoms[0], atoms[1..], s, ignoreCase, Longest(s, Dot(atoms[0])))
  }

  /** The engine's loop over the length `k` of the run `head` takes, from the longest down. */
  function Backtrack(head: Atom, rest: seq<Atom>, s: string, ignoreCase: bool, k: nat): (r: Option<seq<string>>)
    requires !head.Literal?
    requires k <= Longest(s, Dot(head))
    ensures r.Some? ==> CapturesFit([head] + rest, r.value)
    decreases |rest| + 1, 0, k
  {
    if head.Group? && k == 0 then None
    else match Run(rest, s[k..], ignoreCase)
      case Some(caps) =>
        CapturesFitCons(head, rest, s[..k], caps);
        Some(if head.Group? then [s[..k]] + caps else caps)
      case None => if k == 0 then None else Backtrack(head, rest, s, ignoreCase, k - 1)
  }

  lemma CapturesFitCons(head: Atom, rest: seq<Atom>, cap: string, caps: seq<string>)
    requires CapturesFit(rest, caps)
    requires head.Group? ==> cap != [] && forall j :: 0 <= j < |cap| ==> Admits(head.greedy, cap[j])
    ensures CapturesFit([head] + rest, if head.Group? then [cap] + caps else caps)
  {
    assert ([head] + rest)[1..] == rest;
  }

  /** `regex.exec(s)`: the captures when the pattern matches, `None` (null) otherwise. */
  function Exec(r: Regex, s: string): (caps: Option<seq<string>>)
    ensures caps.Some? ==> CapturesFit(AtomsOf(r), caps.value)
  {
    Run(AtomsOf(r), s, r.ignoreCase)
  }

  /** Whether a single atom accepts a piece of the input. */
  predicate PieceFits(a: Atom, piece: string, ignoreCase: bool) {
    match a
    case Literal(c) => |piece| == 1 && SameChar(piece[0], c, ignoreCase)
    case Group(greedy) => piece != [] && forall i :: 0 <= i < |piece| ==> Admits(greedy, piece[i])
    case AnyRun => forall i :: 0 <= i < |piece| ==> Admits(true, piece[i])
  }

  /** `pieces` cuts `s` into consecutive parts, one per atom, each accepted by its atom. */
  predicate Fits(atoms: seq<Atom>, s: string, pieces: seq<string>, ignoreCase: bool)
    decreases |atoms|
  {
    && |pieces| == |atoms|
    && if atoms == [] then s == []
       else
         && |pieces[0]| <= |s| && s[..|pieces[0]|] == pieces[0]
         && PieceFits(atoms[0], pieces[0], ignoreCase)
         && Fits(atoms[1..], s[|pieces[0]|..], pieces[1..], ignoreCase)
  }

  /** The pieces that fall to capturing groups, in order. */
  function Captures(atoms: seq<Atom>, pieces: seq<string>): seq<string>
    requires |pieces| == |atoms|
  {
    if atoms == [] then []
    else (if atoms[0].Group? then [pieces[0]] else []) + Captures(atoms[1..], pieces[1..])
  }

  /** What the engine returns is a way to cut the input that the pattern accepts. */
  lemma {:induction false} RunSound(atoms: seq<Atom>, s: string, ignoreCase: bool) returns (pieces: seq<string>)
    requires Run(atoms, s, ignoreCase).Some?
    ensures Fits(atoms, s, pieces, ignoreCase)
    ensures Captures(atoms, pieces) == Run(atoms, s, ignoreCase).value
    decreases |atoms|, 1, 0
  {
    if atoms == [] {
      pieces := [];
    } else if atoms[0].Literal? {
      var tail := RunSound(atoms[1..], s[1..], ignoreCase);
      pieces := [s[..1]] + tail;
      assert pieces[1..] == tail;
    } else {
      assert atoms == [atoms[0]] + atoms[1..];
      pieces := BacktrackSound(atoms[0], atoms[1..], s, ignoreCase, Longest(s, Dot(atoms[0])));
    }
  }

  lemma {:induction false} BacktrackSound(head: Atom, rest: seq<Atom>, s: string, ignoreCase: bool, k: nat)
    returns (pieces: seq<string>)
    requires !head.Literal? && k <= Longest(s, Dot(head))
    requires Backtrack(head, rest, s, ignoreCase, k).Some?
    ensures Fits([head] + rest, s, pieces, ignoreCase)
    ensures Captures([head] + rest, pieces) == Backtrack(head, rest, s, ignoreCase, k).value
    decreases |rest| + 1, 0, k
  {
    var atoms := [head] + rest;
    assert atoms[1..] == rest;
    if Run(rest, s[k..], ignoreCase).Some? {
      var tail := RunSound(rest, s[k..], ignoreCase);
      pieces := [s[..k]] + tail;
      assert pieces[1..] == tail;
      assert PieceFits(head, s[..k], ignoreCase) by {
        assert forall i :: 0 <= i < k ==> s[..k][i] == s[i];
      }
    } else {
      pieces := BacktrackSound(head, rest, s, ignoreCase, k - 1);
    }
  }

  /** Whenever some way to cut the input is accepted, the engine finds a match. */
  lemma {:induction false} RunComplete(atoms: seq<Atom>, s: string, pieces: seq<string>, ignoreCase: bool)
    requires Fits(atoms, s, pieces, ignoreCase)
    ensures Run(atoms, s, ignoreCase).Some?
    decreases |atoms|
  {
    if atoms != [] {
      var n := |pieces[0]|;
      RunComplete(atoms[1..], s[n..], pieces[1..], ignoreCase);
      if !atoms[0].Literal? {
        var dot := Dot(atoms[0]);
        var longest := Longest(s, dot);
        assert forall i :: 0 <= i < n ==> Admits(dot, s[i]) by {
          forall i | 0 <= i < n ensures Admits(dot, s[i]) {
            assert s[i] == pieces[0][i];
          }
        }
        BacktrackFinds(atoms[0], atoms[1..], s, ignoreCase, longest, n);
      }
    }
  }

  lemma {:induction false} BacktrackFinds(head: Atom, rest: seq<Atom>, s: string, ignoreCase: bool, k: nat, n: nat)
    requires !head.Literal? && n <= k <= Longest(s, Dot(head))
    requires head.Group? ==> n > 0
    requires Run(rest, s[n..], ignoreCase).Some?
    ensures Backtrack(head, rest, s, ignoreCase, k).Some?
    decreases k
  {
    if k > n && Run(rest, s[k..], ignoreCase).None? {
      BacktrackFinds(head, rest, s, ignoreCase, k - 1, n);
    }
  }

  /** The atoms of a text read literally. */
  function Literals(p: string): (atoms: seq<Atom>)
    ensures |atoms| == |p|
    ensures forall i :: 0 <= i < |p| ==> atoms[i] == Literal(p[i])
  {
    seq(|p|, i requires 0 <= i < |p| => Literal(p[i]))
  }

  /**
   * A pattern of literal characters matches exactly the inputs of the same length that
   * agree with it character by character (up to ASCII case under `i`), and captures nothing.
   */
  lemma {:induction false} RunLiterals(p: string, s: string, ignoreCase: bool)
    ensures Run(Literals(p), s, ignoreCase) ==
      if |s| == |p| && forall i :: 0 <= i < |s| ==> SameChar(s[i], p[i], ignoreCase) then Some([]) else None
  {
    if p != [] && s != [] {
      assert Literals(p)[1..] == Literals(p[1..]);
      RunLiterals(p[1..], s[1..], ignoreCase);
      if |s| == |p| && SameChar(s[0], p[0], ignoreCase) &&
         (forall i :: 0 <= i < |s| - 1 ==> SameChar(s[1..][i], p[1..][i], ignoreCase)) {
        assert forall i :: 0 <= i < |s| ==> SameChar(s[i], p[i], ignoreCase) by {
          forall i | 0 <= i < |s| ensures SameChar(s[i], p[i], ignoreCase) {
            if i > 0 {
              assert s[1..][i - 1] == s[i] && p[1..][i - 1] == p[i];
            }
          }
        }
      }
    }
  }

  /** Without the `i` flag, a literal pattern matches only the identical input. */
  lemma ExactLiterals(p: string, s: string)
    ensures Run(Literals(p), s, false) == if s == p then Some([]) else None
  {
    RunLiterals(p, s, false);
    if |s| == |p| && forall i :: 0 <= i < |s| ==> SameChar(s[i], p[i], false) {
      assert s == p;
    }
  }
}
