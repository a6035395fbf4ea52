/**
 * What `RouteMatcher.parse` makes of a pattern such as `/foo/:bar/:rest*`: the tokens its
 * scanner recognises, the regular-expression fragment each one becomes (with `quote` for
 * literal text), and the parameter names in the order they are declared.
 */
module PatternCompiler {
  import opened Results
  import opened JsText
  import opened RegExp

  /** The characters `quote` escapes: `. \ + * [ ? ^ ] $ ( ) { } = ! < > | : -`. */
  predicate IsQuoted(c: char) {
    || c == '.' || c == '\\' || c == '+' || c == '*' || c == '[' || c == '?' || c == '^'
    || c == ']' || c == '$' || c == '(' || c == ')' || c == '{' || c == '}' || c == '='
    || c == '!' || c == '<' || c == '>' || c == '|' || c == ':' || c == '-'
  }

  /** `quote` applied to one character. */
  function QuoteChar(c: char): string {
    if IsQuoted(c) then ['\\', c] else [c]
  }

  /** `quote(str)`: every character of the set above gets a backslash in front of it. */
  function Quote(s: string): (r: string)
    ensures |s| <= |r| <= 2 * |s|
    ensures (forall i :: 0 <= i < |s| ==> !IsQuoted(s[i])) ==> r == s
  {
    if s == [] then [] else QuoteChar(s[0]) + Quote(s[1..])
  }

  /** The atoms `prefix` in front of what `rest` reads as, if it reads at all. */
  function Prepend(prefix: seq<Atom>, rest: Option<seq<Atom>>): Option<seq<Atom>> {
    match rest
    case None => None
    case Some(atoms) => Some(prefix + atoms)
  }

  /** Quoted text followed by more source reads as its characters taken literally. */
  lemma {:induction false} ReadQuote(s: string, rest: string)
    ensures Read(Quote(s) + rest) == Prepend(Literals(s), Read(rest))
  {
    if s == [] {
      assert Quote(s) + rest == rest;
      PrependEmpty(Literals(s), Read(rest));
    } else {
      var tail := Quote(s[1..]) + rest;
      assert Quote(s) + rest == QuoteChar(s[0]) + tail;
      ReadQuote(s[1..], rest);
      ReadQuoteChar(s[0], tail);
      LiteralsCons(s);
      PrependCons(Literal(s[0]), Literals(s[1..]), Read(rest));
    }
  }

  lemma PrependEmpty(prefix: seq<Atom>, rest: Option<seq<Atom>>)
    requires prefix == []
    ensures Prepend(prefix, rest) == rest
  {
    if rest.Some? {
      assert prefix + rest.value == rest.value;
    }
  }

  lemma PrependCons(a: Atom, prefix: seq<Atom>, rest: Option<seq<Atom>>)
    ensures Prepend([a] + prefix, rest) == Cons(a, Prepend(prefix, rest))
  {
    if rest.Some? {
      assert [a] + prefix + rest.value == [a] + (prefix + rest.value);
    }
  }

  lemma LiteralsCons(s: string)
    requires s != []
    ensures Literals(s) == [Literal(s[0])] + Literals(s[1..])
  {
  }

  lemma ReadQuoteChar(c: char, rest: string)
    ensures Read(QuoteChar(c) + rest) == Cons(Literal(c), Read(rest))
  {
    var s := QuoteChar(c) + rest;
    if IsQuoted(c) {
      assert s[0] == '\\' && s[1] == c;
      assert s[2..] == rest;
    } else {
      assert s[0] == c;
      assert s[1..] == rest;
      assert !(SegmentGroup <= s) && !(RestGroup <= s) && !(AnyText <= s) by {
        assert SegmentGroup[0] == '(' && RestGroup[0] == '(' && AnyText[0] == '.';
      }
    }
  }

  /**
   * Quoted text, anchored, is a pattern that matches exactly that text and nothing else:
   * not a longer path that contains it, and not a shorter one.
   */
  lemma QuotedMatchesOnlyItself(s: string, path: string)
    ensures ReadAnchored("^" + Quote(s) + "$") == Some(Literals(s))
    ensures Run(Literals(s), path, false) == if path == s then Some([]) else None
  {
    var source := "^" + Quote(s) + "$";
    assert source[1..|source| - 1] == Quote(s) + [];
    ReadQuote(s, []);
    assert Literals(s) + [] == Literals(s);
    ExactLiterals(s, path);
  }

  /** What the scanner recognises in a pattern. */
  datatype Tok =
    | Lit(c: char)                      // a character taken literally
    | Param(name: string, greedy: bool) // `:name` (one segment) or `:name*` (greedy)
    | Wild                              // a bare `*`

  /** The length of the run of word characters at the start, as `/^(\w+)/` finds it. */
  function WordPrefix(s: string): (n: nat)
    ensures n <= |s|
    ensures forall i :: 0 <= i < n ==> IsWordChar(s[i])
    ensures n == |s| || !IsWordChar(s[n])
  {
    if s == [] || !IsWordChar(s[0]) then 0 else 1 + WordPrefix(s[1..])
  }

  /** What one round of the scanner recognises, and how many characters it consumes. */
  datatype Scan = Scan(toks: seq<Tok>, used: nat)

  /**
   * One round of the scanner at the start of `p`: a `\` takes the next character literally
   * (a `\` at the very end yields nothing); a `:` followed by word characters declares a
   * parameter, greedy when a `*` follows the name; any other `:` is literal; a bare `*` is
   * a wildcard; every other character is literal.
   */
  function Step(p: string): (r: Scan)
    requires p != []
    ensures 1 <= r.used <= |p|
    ensures |r.toks| <= 1
  {
    if p[0] == ':' then
      var n := WordPrefix(p[1..]);
      if n == 0 then Scan([Lit(':')], 1)
      else
        var greedy := 1 + n < |p| && p[1 + n] == '*';
        Scan([Param(p[1..1 + n], greedy)], 1 + n + (if greedy then 1 else 0))
    else if p[0] == '\\' then
      if |p| == 1 then Scan([], 1) else Scan([Lit(p[1])], 2)
    else if p[0] == '*' then Scan([Wild], 1)
    else Scan([Lit(p[0])], 1)
  }

  /** The tokens of a pattern, read left to right one round of the scanner at a time. */
  function Tokenize(p: string): (toks: seq<Tok>)
    ensures |toks| <= |p|
    decreases |p|
  {
    if p == [] then [] else Step(p).toks + Tokenize(p[Step(p).used..])
  }

  /** One round of the scanner contributes its tokens' fragments and names, in order. */
  lemma ScanRound(p: string)
    requires p != []
    ensures Render(Tokenize(p)) == Render(Step(p).toks) + Render(Tokenize(p[Step(p).used..]))
    ensures Names(Tokenize(p)) == Names(Step(p).toks) + Names(Tokenize(p[Step(p).used..]))
  {
    var r := Step(p);
    var rest := Tokenize(p[r.used..]);
    assert Tokenize(p) == r.toks + rest;
    if r.toks == [] {
      assert r.toks + rest == rest;
    } else {
      var t := r.toks[0];
      assert r.toks == [t];
      var all := [t] + rest;
      assert all[1..] == rest && all[0] == t;
      assert Render(all) == Fragment(t) + Render(rest);
      assert Render([t]) == Fragment(t) + Render([]);
      assert Names(all) == Names([t]) + Names(rest) by {
        assert Names([t]) == (if t.Param? then [t.name] else []) + Names([]);
      }
    }
  }

  /** The regular-expression text the scanner appends for one token. */
  function Fragment(t: Tok): string {
    match t
    case Lit(c) => Quote([c])
    case Param(_, greedy) => if greedy then RestGroup else SegmentGroup
    case Wild => AnyText
  }

  /** The regular-expression text for a token sequence, between the anchors. */
  function Render(toks: seq<Tok>): string {
    if toks == [] then [] else Fragment(toks[0]) + Render(toks[1..])
  }

  /** The atom a token stands for. */
  function AtomOf(t: Tok): Atom {
    match t
    case Lit(c) => Literal(c)
    case Param(_, greedy) => Group(greedy)
    case Wild => AnyRun
  }

  function Shape(toks: seq<Tok>): (atoms: seq<Atom>)
    ensures |atoms| == |toks|
    ensures forall i :: 0 <= i < |toks| ==> atoms[i] == AtomOf(toks[i])
  {
    seq(|toks|, i requires 0 <= i < |toks| => AtomOf(toks[i]))
  }

  /** The declared parameter names, in the order they appear. */
  function Names(toks: seq<Tok>): seq<string> {
    if toks == [] then []
    else (if toks[0].Param? then [toks[0].name] else []) + Names(toks[1..])
  }

  /** For each declared parameter, in order, whether it is greedy. */
  function Greediness(toks: seq<Tok>): seq<bool> {
    if toks == [] then []
    else (if toks[0].Param? then [toks[0].greedy] else []) + Greediness(toks[1..])
  }

  /** One fragment in front of more source reads as the token's atom. */
  lemma ReadFragment(t: Tok, rest: string)
    ensures Read(Fragment(t) + rest) == Cons(AtomOf(t), Read(rest))
  {
    var s := Fragment(t) + rest;
    match t
    case Lit(c) =>
      assert Quote([c]) == QuoteChar(c) + Quote([]);
      assert s == QuoteChar(c) + rest;
      ReadQuoteChar(c, rest);
    case Param(_, greedy) =>
      if greedy {
        assert s[..|RestGroup|] == RestGroup && s[|RestGroup|..] == rest;
        assert s[0] == '(' && s[1] == '.';
        assert !(SegmentGroup <= s) by { assert SegmentGroup[1] == '['; }
      } else {
        assert s[..|SegmentGroup|] == SegmentGroup && s[|SegmentGroup|..] == rest;
        assert s[0] == '(';
      }
    case Wild =>
      assert s[..|AnyText|] == AnyText && s[|AnyText|..] == rest;
      assert s[0] == '.';
      assert !(SegmentGroup <= s) && !(RestGroup <= s) by {
        assert SegmentGroup[0] == '(' && RestGroup[0] == '(';
      }
  }

  /** The text the scanner emits reads back as exactly the atoms of the tokens. */
  lemma {:induction false} ReadRender(toks: seq<Tok>)
    ensures Read(Render(toks)) == Some(Shape(toks))
  {
    if toks != [] {
      ReadRender(toks[1..]);
      assert Render(toks) == Fragment(toks[0]) + Render(toks[1..]);
      ReadFragment(toks[0], Render(toks[1..]));
      assert Shape(toks) == [AtomOf(toks[0])] + Shape(toks[1..]);
    }
  }

  /** The compiled source, `^` + fragments + `$`, is one the RegExp reads as the tokens' atoms. */
  lemma ReadAnchoredRender(toks: seq<Tok>)
    ensures ReadAnchored("^" + Render(toks) + "$") == Some(Shape(toks))
  {
    var source := "^" + Render(toks) + "$";
    assert source[1..|source| - 1] == Render(toks);
    ReadRender(toks);
  }

  /**
   * The capturing groups of the compiled pattern correspond one to one, in order, to the
   * declared names: as many groups as names, each of the kind its parameter asks for.
   */
  lemma {:induction false} GroupsFollowNames(toks: seq<Tok>)
    ensures GroupKinds(Shape(toks)) == Greediness(toks)
    ensures |Greediness(toks)| == |Names(toks)|
  {
    if toks != [] {
      GroupsFollowNames(toks[1..]);
      assert Shape(toks)[1..] == Shape(toks[1..]);
    }
  }

  /** A parameter name: a non-empty run of word characters. */
  predicate IsName(name: string) {
    name != [] && forall i :: 0 <= i < |name| ==> IsWordChar(name[i])
  }

  /**
   * The token sequences a pattern can produce: names are word runs, and a one-segment
   * parameter is never directly followed by a wildcard (the `*` would make it greedy).
   */
  predicate WellFormed(toks: seq<Tok>) {
    toks != [] ==>
      && (toks[0].Param? ==> IsName(toks[0].name))
      && (toks[0].Param? && !toks[0].greedy && |toks| > 1 ==> !toks[1].Wild?)
      && WellFormed(toks[1..])
  }

  /** The first token comes from a `*` exactly when a wildcard is where the pattern starts. */
  lemma TokenizeStartsWithWild(p: string)
    ensures Tokenize(p) != [] && Tokenize(p)[0].Wild? <==> p != [] && p[0] == '*'
  {
    if p != [] && Step(p).toks == [] {
      assert p[Step(p).used..] == [];
    }
  }

  /** Whatever the pattern, its tokens are well formed. */
  lemma {:induction false} TokenizeWellFormed(p: string)
    ensures WellFormed(Tokenize(p))
    decreases |p|
  {
    if p != [] {
      var r := Step(p);
      var rest := p[r.used..];
      TokenizeWellFormed(rest);
      if r.toks != [] {
        var t := r.toks[0];
        StepParamWellFormed(p);
        if t.Param? && !t.greedy {
          TokenizeStartsWithWild(rest);
        }
        WellFormedCons(t, Tokenize(rest));
        assert r.toks == [t];
      }
    }
  }

  /** A parameter the scanner declares has a word-run name, and `*` only follows a greedy one. */
  lemma StepParamWellFormed(p: string)
    requires p != []
    ensures var r := Step(p);
      r.toks != [] && r.toks[0].Param? ==>
        && IsName(r.toks[0].name)
        && (!r.toks[0].greedy ==> r.used == |p| || p[r.used] != '*')
  {
  }

  lemma WellFormedCons(t: Tok, toks: seq<Tok>)
    requires WellFormed(toks)
    requires t.Param? ==> IsName(t.name)
    requires t.Param? && !t.greedy && toks != [] ==> !toks[0].Wild?
    ensures WellFormed([t] + toks)
  {
    assert ([t] + toks)[1..] == toks;
  }

  /** The canonical pattern text of a token: literals escaped with `\`. */
  function PrintTok(t: Tok): string {
    match t
    case Lit(c) => ['\\', c]
    case Param(name, greedy) => [':'] + name + (if greedy then "*" else "")
    case Wild => "*"
  }

  /** The canonical pattern text of a token sequence. */
  function Print(toks: seq<Tok>): string {
    if toks == [] then [] else PrintTok(toks[0]) + Print(toks[1..])
  }

  lemma {:induction false} WordPrefixOfName(name: string, tail: string)
    requires forall i :: 0 <= i < |name| ==> IsWordChar(name[i])
    requires tail == [] || !IsWordChar(tail[0])
    ensures WordPrefix(name + tail) == |name|
  {
    var s := name + tail;
    if name == [] {
      assert s == tail;
    } else {
      assert s[0] == name[0];
      assert s[1..] == name[1..] + tail;
      WordPrefixOfName(name[1..], tail);
    }
  }

  /** One round of the scanner over a printed token followed by text that cannot extend it. */
  lemma StepPrintTok(t: Tok, after: string)
    requires t.Param? ==> IsName(t.name)
    requires t.Param? ==> after == [] || !IsWordChar(after[0])
    requires t.Param? && !t.greedy ==> after == [] || after[0] != '*'
    ensures Step(PrintTok(t) + after) == Scan([t], |PrintTok(t)|)
  {
    var p := PrintTok(t) + after;
    match t
    case Lit(c) =>
      assert p[0] == '\\' && p[1] == c;
    case Wild =>
      assert p[0] == '*';
    case Param(name, greedy) =>
      StepPrintParam(name, greedy, after);
  }

  lemma StepPrintParam(name: string, greedy: bool, after: string)
    requires IsName(name)
    requires after == [] || !IsWordChar(after[0])
    requires !greedy ==> after == [] || after[0] != '*'
    ensures Step(PrintTok(Param(name, greedy)) + after) == Scan([Param(name, greedy)], |PrintTok(Param(name, greedy))|)
  {
    var star := if greedy then "*" else "";
    var p := [':'] + (name + (star + after));
    assert PrintTok(Param(name, greedy)) + after == p;
    assert p[1..] == name + (star + after);
    WordPrefixOfName(name, star + after);
    var n := |name|;
    assert p[1..1 + n] == name;
    assert (1 + n < |p| && p[1 + n] == '*') == greedy;
  }

  /** Scanning a printed token followed by text that cannot extend it. */
  lemma TokenizePrintTok(t: Tok, after: string)
    requires t.Param? ==> IsName(t.name)
    requires t.Param? ==> after == [] || !IsWordChar(after[0])
    requires t.Param? && !t.greedy ==> after == [] || after[0] != '*'
    ensures Tokenize(PrintTok(t) + after) == [t] + Tokenize(after)
  {
    var p := PrintTok(t) + after;
    StepPrintTok(t, after);
    assert p[|PrintTok(t)|..] == after;
  }

  /**
   * Printing well-formed tokens and scanning the text gives the tokens back, and whatever
   * follows a `\` is scanned on its own; with `tail` a lone `\`, this says that a trailing
   * backslash adds nothing.
   */
  lemma {:induction false} TokenizePrint(toks: seq<Tok>, tail: string)
    requires WellFormed(toks)
    requires tail == [] || tail[0] == '\\'
    ensures Tokenize(Print(toks) + tail) == toks + Tokenize(tail)
  {
    if toks != [] {
      TokenizePrint(toks[1..], tail);
      TokenizePrintStep(toks, tail);
    } else {
      assert Print(toks) + tail == tail;
    }
  }

  lemma TokenizePrintStep(toks: seq<Tok>, tail: string)
    requires toks != [] && WellFormed(toks)
    requires tail == [] || tail[0] == '\\'
    requires Tokenize(Print(toks[1..]) + tail) == toks[1..] + Tokenize(tail)
    ensures Tokenize(Print(toks) + tail) == toks + Tokenize(tail)
  {
    TokenizePrintCons(toks, tail);
    PrintCons(toks, tail);
    ConsAppend(toks, Tokenize(tail));
  }

  lemma ConsAppend<T>(s: seq<T>, t: seq<T>)
    requires s != []
    ensures s + t == [s[0]] + (s[1..] + t)
  {
  }

  /** One step of the above: the first printed token scans back on its own. */
  lemma TokenizePrintCons(toks: seq<Tok>, tail: string)
    requires toks != [] && WellFormed(toks)
    requires tail == [] || tail[0] == '\\'
    ensures Tokenize(PrintTok(toks[0]) + (Print(toks[1..]) + tail)) == [toks[0]] + Tokenize(Print(toks[1..]) + tail)
  {
    var rest := toks[1..];
    var after := Print(rest) + tail;
    if after != [] {
      PrintStart(rest, tail);
      assert !IsWordChar(after[0]);
    }
    TokenizePrintTok(toks[0], after);
  }

  lemma PrintCons(toks: seq<Tok>, tail: string)
    requires toks != []
    ensures Print(toks) + tail == PrintTok(toks[0]) + (Print(toks[1..]) + tail)
  {
  }

  /** What printed text starts with: a `\`, a `:`, or (only for a wildcard) a `*`. */
  lemma PrintStart(toks: seq<Tok>, tail: string)
    requires tail == [] || tail[0] == '\\'
    requires Print(toks) + tail != []
    ensures var s := Print(toks) + tail;
      s[0] == '\\' || s[0] == ':' || (s[0] == '*' && toks != [] && toks[0].Wild?)
  {
    if toks != [] {
      var s := Print(toks) + tail;
      assert s[0] == PrintTok(toks[0])[0];
    }
  }

  /** The pattern characters with no special meaning to the scanner. */
  predicate IsPlain(c: char) {
    c != ':' && c != '\\' && c != '*'
  }

  /** The tokens of text taken literally. */
  function Lits(s: string): (toks: seq<Tok>)
    ensures |toks| == |s|
    ensures forall i :: 0 <= i < |s| ==> toks[i] == Lit(s[i])
  {
    seq(|s|, i requires 0 <= i < |s| => Lit(s[i]))
  }

  /** A pattern without `:`, `\` or `*` is all literal text. */
  lemma {:induction false} TokenizePlain(p: string)
    requires forall i :: 0 <= i < |p| ==> IsPlain(p[i])
    ensures Tokenize(p) == Lits(p)
  {
    if p != [] {
      TokenizePlain(p[1..]);
      assert Lits(p) == [Lit(p[0])] + Lits(p[1..]);
    }
  }

  /** `\` before every character makes all of it literal, special characters included. */
  lemma {:induction false} TokenizeEscaped(s: string)
    ensures Tokenize(Print(Lits(s))) == Lits(s)
  {
    LitsWellFormed(s);
    TokenizePrint(Lits(s), []);
    assert Print(Lits(s)) + [] == Print(Lits(s));
    assert Lits(s) + Tokenize([]) == Lits(s);
  }

  /** A `\` at the very end of a pattern adds nothing, and the scan stops there. */
  lemma TrailingEscapeDropped(toks: seq<Tok>)
    requires WellFormed(toks)
    ensures Tokenize(Print(toks) + "\\") == toks
  {
    TokenizePrint(toks, "\\");
    assert Tokenize("\\") == [];
    assert toks + [] == toks;
  }

  lemma {:induction false} LitsWellFormed(s: string)
    ensures WellFormed(Lits(s))
  {
    if s != [] {
      LitsWellFormed(s[1..]);
      assert Lits(s)[1..] == Lits(s[1..]);
    }
  }

  /** Literal tokens have literal atoms. */
  lemma ShapeLits(s: string)
    ensures Shape(Lits(s)) == Literals(s)
  {
  }

  /** The regular-expression source `parse` builds for a pattern. */
  function Source(p: string): string {
    "^" + Render(Tokenize(p)) + "$"
  }

  /**
   * `new RegExp(source, ignoreCase ? 'i' : '')` for the source `parse` builds: always a
   * well-formed expression, whose atoms are those of the pattern's tokens.
   */
  function Compile(p: string, ignoreCase: bool): (r: Regex)
    ensures r.source == Source(p) && r.ignoreCase == ignoreCase
    ensures AtomsOf(r) == Shape(Tokenize(p))
  {
    ReadAnchoredRender(Tokenize(p));
    RegexSource(Source(p), ignoreCase)
  }

  /**
   * Whatever the URL, a match of a compiled pattern captures one non-empty value per
   * declared name, in order; a `:name` value holds no `/`, a `:name*` value no line
   * terminator.
   */
  lemma CompiledCaptures(p: string, ignoreCase: bool, url: string)
    requires Exec(Compile(p, ignoreCase), url).Some?
    ensures var caps := Exec(Compile(p, ignoreCase), url).value;
      var greedy := Greediness(Tokenize(p));
      && |caps| == |Names(Tokenize(p))| == |greedy|
      && forall i :: 0 <= i < |caps| ==>
           && caps[i] != []
           && (greedy[i] ==> forall j :: 0 <= j < |caps[i]| ==> !IsLineTerminator(caps[i][j]))
           && (!greedy[i] ==> forall j :: 0 <= j < |caps[i]| ==> caps[i][j] != '/')
  {
    var toks := Tokenize(p);
    GroupsFollowNames(toks);
    var caps := Exec(Compile(p, ignoreCase), url).value;
    assert CapturesFit(Shape(toks), caps);
  }

  /**
   * A pattern with no `:`, `\` or `*` is matched by exactly the identical URL, with no
   * captures, and declares no names.
   */
  lemma PlainPatternExact(p: string, url: string)
    requires forall i :: 0 <= i < |p| ==> IsPlain(p[i])
    ensures Names(Tokenize(p)) == []
    ensures Exec(Compile(p, false), url) == if url == p then Some([]) else None
  {
    TokenizePlain(p);
    NamesLits(p);
    var r := Compile(p, false);
    assert AtomsOf(r) == Literals(p) by {
      ShapeLits(p);
    }
    assert Exec(r, url) == Run(Literals(p), url, false);
    ExactLiterals(p, url);
  }

  /**
   * With the case-insensitive flag, a plain pattern is matched by exactly the URLs of its
   * length that agree with it character by character up to ASCII case, with no captures.
   */
  lemma PlainPatternFolds(p: string, url: string)
    requires forall i :: 0 <= i < |p| ==> IsPlain(p[i])
    ensures Exec(Compile(p, true), url) ==
      if |url| == |p| && forall i :: 0 <= i < |url| ==> SameChar(url[i], p[i], true) then Some([]) else None
  {
    TokenizePlain(p);
    ShapeLits(p);
    RunLiterals(p, url, true);
  }

  lemma {:induction false} NamesLits(s: string)
    ensures Names(Lits(s)) == []
  {
    if s != [] {
      NamesLits(s[1..]);
      assert Lits(s)[1..] == Lits(s[1..]);
    }
  }
}
