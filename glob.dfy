/**
 * The pattern compiler of glob.go: Compile trims the pattern, checks the separator, reads the
 * negation prefix, splits the rest into path components with separatorsScanner and appends one
 * regex fragment per component, between the optional `^` and `$` anchors.
 *
 * The regex engine is outside the model: a compiled Glob carries its regex text, and matching is
 * left to an engine passed in as a function. What the text says is given by the Fragment datatype
 * and its rendering; CompileSpec states what Compile produces, and the lemmas state its properties.
 */
module Glob {
  import opened Wrappers
  import opened GlobOptions
  import opened Utils

  /** The regex a `**` component expands to inside its optional group. */
  const GlobStarComponent: string := ".+"

  newtype byte = x: int | 0 <= x < 256
  type Bytes = seq<byte>

  /** A regex engine: does the regex with this text match these bytes? */
  type RegexEngine = (string, Bytes) -> bool

  /** A compiled glob: the trimmed pattern, whether it was negated, and the regex text it compiled to. */
  datatype Glob = Glob(globPattern: string, negated: bool, regex: string) {
    /** String(): the pattern the glob was compiled from. */
    function String(): string {
      globPattern
    }

    /** IsNegative(): whether the pattern was negated. */
    function IsNegative(): bool {
      negated
    }

    /** Match(b): the compiled regex's verdict on b; the negation plays no part. */
    function Match(engine: RegexEngine, b: Bytes): bool {
      engine(regex, b)
    }
  }

  /** The error Compile reports for a separator that is also an expander. */
  datatype CompileError = SeparatorNotAllowed(separator: char)

  // ---------------------------------------------------------------------------
  // strings.TrimSpace
  // ---------------------------------------------------------------------------

  /** The runes unicode.IsSpace accepts: the Latin-1 spaces and the other runes with the White_Space property. */
  const WhiteSpace: set<char> := {
    '\t', '\n', '\U{000B}', '\U{000C}', '\r', ' ', '\U{0085}', '\U{00A0}', '\U{1680}',
    '\U{2000}', '\U{2001}', '\U{2002}', '\U{2003}', '\U{2004}', '\U{2005}', '\U{2006}',
    '\U{2007}', '\U{2008}', '\U{2009}', '\U{200A}',
    '\U{2028}', '\U{2029}', '\U{202F}', '\U{205F}', '\U{3000}'
  }

  predicate IsSpace(c: char) {
    c in WhiteSpace
  }

  /** The number of white-space runes s starts with. */
  function LeadingSpaces(s: string): (n: nat)
    ensures n <= |s|
    decreases |s|
  {
    if s == [] || !IsSpace(s[0]) then 0 else 1 + LeadingSpaces(s[1..])
  }

  /** The number of white-space runes s ends with. */
  function TrailingSpaces(s: string): (n: nat)
    ensures n <= |s|
    decreases |s|
  {
    if s == [] || !IsSpace(s[|s| - 1]) then 0 else 1 + TrailingSpaces(s[..|s| - 1])
  }

  /** strings.TrimSpace: drops the leading white space, then the trailing white space. */
  function TrimSpace(s: string): (r: string)
    ensures |r| <= |s|
  {
    var t := s[LeadingSpaces(s)..];
    t[..|t| - TrailingSpaces(t)]
  }

  lemma {:induction false} LeadingSpacesAreSpaces(s: string)
    ensures var n := LeadingSpaces(s);
            (forall j :: 0 <= j < n ==> IsSpace(s[j])) && (n < |s| ==> !IsSpace(s[n]))
    decreases |s|
  {
    if s != [] && IsSpace(s[0]) {
      LeadingSpacesAreSpaces(s[1..]);
    }
  }

  lemma {:induction false} TrailingSpacesAreSpaces(s: string)
    ensures var n := TrailingSpaces(s);
            (forall j :: |s| - n <= j < |s| ==> IsSpace(s[j])) && (n < |s| ==> !IsSpace(s[|s| - n - 1]))
    decreases |s|
  {
    if s != [] && IsSpace(s[|s| - 1]) {
      TrailingSpacesAreSpaces(s[..|s| - 1]);
    }
  }

  /**
   * TrimSpace keeps a contiguous slice of its argument, drops only white space around it, and
   * leaves no white space at either end.
   */
  lemma TrimSpaceSlice(s: string)
    ensures var i := LeadingSpaces(s);
            var r := TrimSpace(s);
            i + |r| <= |s| && r == s[i..i + |r|] &&
            (forall j :: 0 <= j < i ==> IsSpace(s[j])) &&
            (forall j :: i + |r| <= j < |s| ==> IsSpace(s[j])) &&
            (r == [] || (!IsSpace(r[0]) && !IsSpace(r[|r| - 1])))
  {
    var i := LeadingSpaces(s);
    var t := s[i..];
    var k := |t| - TrailingSpaces(t);
    var r := t[..k];
    LeadingSpacesAreSpaces(s);
    TrailingSpacesAreSpaces(t);
    assert r == s[i..i + k];
    forall j | i + k <= j < |s|
      ensures IsSpace(s[j])
    {
      assert s[j] == t[j - i];
    }
    if r != [] {
      assert r[0] == s[i];
      assert r[k - 1] == t[k - 1];
    }
  }

  /** A string that neither starts nor ends with white space is left as it is. */
  lemma TrimSpaceNoSpace(s: string)
    requires s == [] || (!IsSpace(s[0]) && !IsSpace(s[|s| - 1]))
    ensures TrimSpace(s) == s
  {
    assert s[0..] == s;
  }

  /** Trimming twice is trimming once. */
  lemma TrimSpaceIdempotent(s: string)
    ensures TrimSpace(TrimSpace(s)) == TrimSpace(s)
  {
    var r := TrimSpace(s);
    TrimSpaceSlice(s);
    if r != [] {
      assert LeadingSpaces(r) == 0;
      assert r[0..] == r;
      assert TrailingSpaces(r) == 0;
      assert r[..|r|] == r;
    }
  }

  // ---------------------------------------------------------------------------
  // Regex fragments
  // ---------------------------------------------------------------------------

  /**
   * The pieces parseComponent writes: the escaped separator before a component, `[^sep]` for `?`,
   * `[^sep]*` for `*` inside a component, `[^sep]+` for a whole `*` component, the optional
   * globstar group, and a literal run quoted by escapeRegexComponent.
   */
  datatype Fragment =
    | Sep
    | AnyRune
    | AnyRun
    | StarComponent
    | GlobStarGroup(leadingSeparator: bool)
    | Literal(text: string)

  function Render(f: Fragment, escapedSeparator: string): string {
    match f
    case Sep => escapedSeparator
    case AnyRune => "[^" + escapedSeparator + "]"
    case AnyRun => "[^" + escapedSeparator + "]*"
    case StarComponent => "[^" + escapedSeparator + "]+"
    case GlobStarGroup(leading) => "(?:" + (if leading then escapedSeparator else "") + GlobStarComponent + ")?"
    case Literal(text) => EscapeRegexComponent(text)
  }

  function RenderAll(fs: seq<Fragment>, escapedSeparator: string): string
    decreases |fs|
  {
    if fs == [] then [] else Render(fs[0], escapedSeparator) + RenderAll(fs[1..], escapedSeparator)
  }

  lemma {:induction false} RenderAllAppend(a: seq<Fragment>, b: seq<Fragment>, escapedSeparator: string)
    ensures RenderAll(a + b, escapedSeparator) == RenderAll(a, escapedSeparator) + RenderAll(b, escapedSeparator)
    decreases |a|
  {
    if a == [] {
      assert a + b == b;
    } else {
      assert (a + b)[1..] == a[1..] + b;
      RenderAllAppend(a[1..], b, escapedSeparator);
    }
  }

  /** The separator as escapeRegexComponent quotes it. */
  function EscapedSeparator(separator: char): string {
    EscapeRegexComponent([separator])
  }

  // ---------------------------------------------------------------------------
  // What parseComponent writes
  // ---------------------------------------------------------------------------

  /** The runes separatorsScanner(expanders) splits a mixed component at. */
  function ExpanderSet(): set<char> {
    SetOf(Expanders)
  }

  function PartFragment(part: string): Fragment {
    if part == "?" then AnyRune else if part == "*" then AnyRun else Literal(part)
  }

  function PartFragments(parts: seq<string>): seq<Fragment>
    decreases |parts|
  {
    if parts == [] then [] else [PartFragment(parts[0])] + PartFragments(parts[1..])
  }

  /**
   * The fragments parseComponent writes for a component at scanner index idx: a globstar group
   * unless the previous component was a globstar too, or else the escaped separator (except for
   * the first scanner token) followed by `[^sep]+` for `*` or the expanded parts of the component.
   */
  function ComponentFragments(component: string, idx: nat, lastWasGlobStar: bool): seq<Fragment> {
    if component == "**" then (if lastWasGlobStar then [] else [GlobStarGroup(idx != 0)])
    else
      LeadFragments(idx) +
      (if component == "*" then [StarComponent] else PartFragments(SplitAll(component, ExpanderSet())))
  }

  /** The fragments written so far, and whether the last component written was a globstar. */
  datatype Body = Body(frags: seq<Fragment>, lastWasGlobStar: bool)

  /**
   * What Compile's loop has written after the scanner tokens `tokens`: separator-only tokens are
   * skipped, and every other token is passed to parseComponent with its scanner index.
   */
  function BodyOf(tokens: seq<string>, separator: char): Body
    decreases |tokens|
  {
    if tokens == [] then Body([], false)
    else
      var prior := BodyOf(tokens[..|tokens| - 1], separator);
      var component := tokens[|tokens| - 1];
      if component == [separator] then prior
      else Body(prior.frags + ComponentFragments(component, |tokens| - 1, prior.lastWasGlobStar), component == "**")
  }

  /** The regex text Compile builds for the pattern left after the negation prefix. */
  function RegexText(rest: string, options: Options): string {
    (if options.matchAtStart then "^" else "") +
    RenderAll(BodyOf(SplitAll(rest, {options.separator}), options.separator).frags, EscapedSeparator(options.separator)) +
    (if options.matchAtEnd then "$" else "")
  }

  // ---------------------------------------------------------------------------
  // Negation
  // ---------------------------------------------------------------------------

  /** The number of `!` runes anywhere in s. */
  function CountBangs(s: string): (n: nat)
    ensures n <= |s|
    decreases |s|
  {
    if s == [] then 0 else CountBangs(s[..|s| - 1]) + (if s[|s| - 1] == '!' then 1 else 0)
  }

  /** The number of `!` runes s starts with. */
  function LeadingBangs(s: string): (n: nat)
    ensures n <= |s| && (forall j :: 0 <= j < n ==> s[j] == '!') && (n == |s| || s[n] != '!')
    decreases |s|
  {
    if s == [] || s[0] != '!' then 0 else 1 + LeadingBangs(s[1..])
  }

  /** parseNegation as written: the parity of all `!` runes, and the pattern less that many leading runes. */
  function NegationAsWritten(pattern: string): (bool, string) {
    var n := CountBangs(pattern);
    (n % 2 == 1, pattern[n..])
  }

  /** The negation prefix as intended: the parity of the leading `!` runes, and the pattern after them. */
  function Negation(pattern: string): (bool, string) {
    var n := LeadingBangs(pattern);
    (n % 2 == 1, pattern[n..])
  }

  /** Negation splits the pattern into a run of `!` and a rest that does not start with `!`. */
  lemma NegationSplitsPrefix(pattern: string)
    ensures var (negated, rest) := Negation(pattern);
            var k := |pattern| - |rest|;
            0 <= k && pattern == pattern[..k] + rest &&
            (forall j :: 0 <= j < k ==> pattern[j] == '!') &&
            (rest == [] || rest[0] != '!') &&
            (negated <==> k % 2 == 1)
  {
  }

  /** When every `!` of the pattern is leading, the code as written and the intended reading agree. */
  lemma {:induction false} NegationAgreesOnLeadingBangs(pattern: string)
    requires forall j :: LeadingBangs(pattern) <= j < |pattern| ==> pattern[j] != '!'
    ensures NegationAsWritten(pattern) == Negation(pattern)
  {
    CountBangsLeading(pattern, |pattern|);
    assert pattern[..|pattern|] == pattern;
  }

  lemma {:induction false} CountBangsLeading(pattern: string, k: nat)
    requires LeadingBangs(pattern) <= k <= |pattern|
    requires forall j :: LeadingBangs(pattern) <= j < |pattern| ==> pattern[j] != '!'
    ensures CountBangs(pattern[..k]) == LeadingBangs(pattern)
    decreases k
  {
    var n := LeadingBangs(pattern);
    if k > n {
      CountBangsLeading(pattern, k - 1);
      assert pattern[..k][..k - 1] == pattern[..k - 1];
    } else {
      CountBangsAllBangs(pattern[..k]);
    }
  }

  lemma {:induction false} CountBangsAllBangs(s: string)
    requires forall j :: 0 <= j < |s| ==> s[j] == '!'
    ensures CountBangs(s) == |s|
    decreases |s|
  {
    if s != [] {
      CountBangsAllBangs(s[..|s| - 1]);
    }
  }

  /** A `!` after the start still toggles the negation and strips a leading rune: `a!b` is read as negated `!b`. */
  lemma NegationAsWrittenCounterexample()
    ensures NegationAsWritten("a!b") == (true, "!b")
    ensures Negation("a!b") == (false, "a!b")
  {
    assert "a!b"[..2] == "a!";
    assert "a!"[..1] == "a";
    assert "a!b"[1..] == "!b";
  }

  // ---------------------------------------------------------------------------
  // Compile, as a function
  // ---------------------------------------------------------------------------

  /**
   * What Compile returns, given that regexp.Compile accepts the generated text. The negation is
   * parseNegation as written, so every `!` of the trimmed pattern counts.
   */
  function CompileSpec(pattern: string, options: Option<Options>): Result<Glob, CompileError> {
    var trimmed := TrimSpace(pattern);
    if options.Some? && options.value.separator in Expanders then Failure(SeparatorNotAllowed(options.value.separator))
    else
      var opts := OrDefault(options);
      var (negated, rest) := NegationAsWritten(trimmed);
      Success(Glob(trimmed, negated, RegexText(rest, opts)))
  }

  /** With an acceptable separator, the compiled glob is the trimmed pattern, its negation and its regex text. */
  lemma CompileSpecSuccess(pattern: string, options: Option<Options>)
    requires OrDefault(options).separator !in Expanders
    ensures var trimmed := TrimSpace(pattern);
            CompileSpec(pattern, options) ==
            Success(Glob(trimmed, NegationAsWritten(trimmed).0, RegexText(NegationAsWritten(trimmed).1, OrDefault(options))))
  {
  }

  /** Compile as intended: only the leading `!` of the trimmed pattern form the negation prefix. */
  function CompileIntended(pattern: string, options: Option<Options>): (r: Result<Glob, CompileError>)
    ensures r.Failure? <==> CompileSpec(pattern, options).Failure?
    ensures r.Failure? ==> r == CompileSpec(pattern, options)
    ensures r.Success? ==> r.value.globPattern == TrimSpace(pattern) &&
                           r.value.negated == (LeadingBangs(TrimSpace(pattern)) % 2 == 1)
  {
    var trimmed := TrimSpace(pattern);
    if options.Some? && options.value.separator in Expanders then Failure(SeparatorNotAllowed(options.value.separator))
    else
      var opts := OrDefault(options);
      var (negated, rest) := Negation(trimmed);
      Success(Glob(trimmed, negated, RegexText(rest, opts)))
  }

  /** The compiler as written and as intended agree on every pattern whose `!` are all leading. */
  lemma CompileAgreesOnLeadingBangs(pattern: string, options: Option<Options>)
    requires forall j :: LeadingBangs(TrimSpace(pattern)) <= j < |TrimSpace(pattern)| ==> TrimSpace(pattern)[j] != '!'
    ensures CompileSpec(pattern, options) == CompileIntended(pattern, options)
  {
    NegationAgreesOnLeadingBangs(TrimSpace(pattern));
  }

  /** As written, `a!b` compiles to a negated glob over `!b`; as intended, to a plain glob over `a!b`. */
  lemma CompileAsWrittenCounterexample()
    ensures CompileSpec("a!b", None) == Success(Glob("a!b", true, RegexText("!b", DefaultOptions)))
    ensures CompileIntended("a!b", None) == Success(Glob("a!b", false, RegexText("a!b", DefaultOptions)))
  {
    TrimSpaceNoSpace("a!b");
    NegationAsWrittenCounterexample();
    assert DefaultOptions.separator !in Expanders;
    CompileSpecSuccess("a!b", None);
  }

  // ---------------------------------------------------------------------------
  // The imperative compiler
  // ---------------------------------------------------------------------------

  /** parserState: the regex buffer, the globstar flag, the options and the escaped separator. */
  class ParserState {
    var regexBuffer: string
    var lastComponentWasGlobStar: bool
    const options: Options
    const escapedSeparator: string

    constructor (options: Options, escapedSeparator: string)
      ensures regexBuffer == [] && !lastComponentWasGlobStar
      ensures this.options == options && this.escapedSeparator == escapedSeparator
    {
      regexBuffer := [];
      lastComponentWasGlobStar := false;
      this.options := options;
      this.escapedSeparator := escapedSeparator;
    }
  }

  /** globImpl while it is being compiled; the regex text stands for the compiled *regexp.Regexp. */
  class GlobImpl {
    var regex: string
    const globPattern: string
    var parserState: ParserState?
    var negated: bool

    constructor (globPattern: string, parserState: ParserState)
      ensures this.globPattern == globPattern && this.parserState == parserState && !negated && regex == []
    {
      regex := [];
      this.globPattern := globPattern;
      this.parserState := parserState;
      negated := false;
    }
  }

  /** parseNegation as written: toggles the negation for every `!` in the pattern and strips that many runes. */
  method ParseNegation(pattern: string, glob: GlobImpl) returns (rest: string)
    modifies glob`negated
    ensures glob.negated == (old(glob.negated) != NegationAsWritten(pattern).0)
    ensures rest == NegationAsWritten(pattern).1
  {
    if pattern == [] {
      return pattern;
    }

    var negations := 0;
    var k := 0;
    while k < |pattern|
      invariant 0 <= k <= |pattern|
      invariant negations == CountBangs(pattern[..k])
      invariant glob.negated == (old(glob.negated) != (negations % 2 == 1))
    {
      assert pattern[..k + 1][..k] == pattern[..k];
      if pattern[k] == '!' {
        glob.negated := !glob.negated;
        negations := negations + 1;
      }
      k := k + 1;
    }
    assert pattern[..k] == pattern;
    rest := pattern[negations..];
  }

  /** parseNegation as intended: toggles the negation for every leading `!` and strips them. */
  method ParseLeadingNegation(pattern: string, glob: GlobImpl) returns (rest: string)
    modifies glob`negated
    ensures glob.negated == (old(glob.negated) != Negation(pattern).0)
    ensures rest == Negation(pattern).1
  {
    var negations := 0;
    while negations < |pattern| && pattern[negations] == '!'
      invariant 0 <= negations <= |pattern|
      invariant forall j :: 0 <= j < negations ==> pattern[j] == '!'
      invariant glob.negated == (old(glob.negated) != (negations % 2 == 1))
    {
      glob.negated := !glob.negated;
      negations := negations + 1;
    }
    rest := pattern[negations..];
  }

  /** One step of a scanner at end of input: the token is a prefix of the data and the next token of its split. */
  lemma ScannerStep(seps: set<char>, data: string, advance: nat, part: string)
    requires SplitStep(seps, data, true) == Split(advance, Some(part))
    ensures 0 < advance <= |data| && data == part + data[advance..]
    ensures SplitAll(data, seps) == [part] + SplitAll(data[advance..], seps)
  {
    assert part == data[..advance];
  }

  lemma PartFragmentsAppend(parts: seq<string>, part: string)
    ensures PartFragments(parts + [part]) == PartFragments(parts) + [PartFragment(part)]
    decreases |parts|
  {
    if parts == [] {
      assert [] + [part] == [part];
    } else {
      assert (parts + [part])[1..] == parts[1..] + [part];
      PartFragmentsAppend(parts[1..], part);
    }
  }

  /** One more part scanned from a mixed component: the tokens so far grow by the part. */
  lemma SplitSnoc(seps: set<char>, component: string, parts: seq<string>, data: string, advance: nat, part: string)
    requires SplitStep(seps, data, true) == Split(advance, Some(part))
    requires SplitAll(component, seps) == parts + SplitAll(data, seps)
    ensures 0 < advance <= |data|
    ensures SplitAll(component, seps) == (parts + [part]) + SplitAll(data[advance..], seps)
  {
    ScannerStep(seps, data, advance, part);
  }

  /** One more part written: the buffer grows by the part's rendering. */
  lemma RenderPartsSnoc(before: string, written: string, parts: seq<string>, part: string, escapedSeparator: string)
    requires written == before + RenderAll(PartFragments(parts), escapedSeparator)
    ensures written + Render(PartFragment(part), escapedSeparator) ==
            before + RenderAll(PartFragments(parts + [part]), escapedSeparator)
  {
    PartFragmentsAppend(parts, part);
    RenderAllAppend(PartFragments(parts), [PartFragment(part)], escapedSeparator);
    RenderAllOne(PartFragment(part), escapedSeparator);
    AppendTwo(before, RenderAll(PartFragments(parts), escapedSeparator), Render(PartFragment(part), escapedSeparator));
  }

  /** The scan in parseComponent over a component that is neither `*` nor `**`, expanding `?` and `*`. */
  method ExpandComponent(component: string, state: ParserState)
    modifies state
    ensures state.regexBuffer == old(state.regexBuffer) + RenderAll(PartFragments(SplitAll(component, ExpanderSet())), state.escapedSeparator)
    ensures state.lastComponentWasGlobStar == old(state.lastComponentWasGlobStar)
  {
    ghost var esep := state.escapedSeparator;
    ghost var before := state.regexBuffer;
    ghost var parts: seq<string> := [];
    var data := component;
    while true
      invariant SplitAll(component, ExpanderSet()) == parts + SplitAll(data, ExpanderSet())
      invariant state.regexBuffer == before + RenderAll(PartFragments(parts), esep)
      invariant state.lastComponentWasGlobStar == old(state.lastComponentWasGlobStar)
      decreases |data|
    {
      var advance, token := SeparatorsScanner(Expanders, data, true);
      if token.None? {
        assert data == [] && parts + [] == parts;
        break;
      }
      var part := token.value;
      ghost var written := state.regexBuffer;
      if part == "?" {
        state.regexBuffer := state.regexBuffer + "[^";
        state.regexBuffer := state.regexBuffer + state.escapedSeparator;
        state.regexBuffer := state.regexBuffer + "]";
        AppendThree(written, "[^", esep, "]");
      } else if part == "*" {
        state.regexBuffer := state.regexBuffer + "[^";
        state.regexBuffer := state.regexBuffer + state.escapedSeparator;
        state.regexBuffer := state.regexBuffer + "]*";
        AppendThree(written, "[^", esep, "]*");
      } else {
        state.regexBuffer := state.regexBuffer + EscapeRegexComponent(part);
      }
      assert state.regexBuffer == written + Render(PartFragment(part), esep);
      RenderPartsSnoc(before, written, parts, part, esep);
      SplitSnoc(ExpanderSet(), component, parts, data, advance, part);
      parts := parts + [part];
      data := data[advance..];
    }
  }


  lemma RenderAllOne(f: Fragment, escapedSeparator: string)
    ensures RenderAll([f], escapedSeparator) == Render(f, escapedSeparator)
  {
    assert [f][1..] == [];
  }

  /** The separator parseComponent writes before every component but the first scanner token. */
  function LeadFragments(idx: nat): seq<Fragment> {
    if idx != 0 then [Sep] else []
  }

  lemma RenderLead(idx: nat, escapedSeparator: string)
    ensures RenderAll(LeadFragments(idx), escapedSeparator) == if idx != 0 then escapedSeparator else ""
  {
    if idx != 0 {
      RenderAllOne(Sep, escapedSeparator);
    }
  }

  /** parseComponent: appends the fragments of one component and records whether it was a globstar. */
  method ParseComponent(component: string, idx: nat, glob: GlobImpl)
    requires glob.parserState != null
    modifies glob.parserState
    ensures glob.parserState.regexBuffer ==
            old(glob.parserState.regexBuffer) +
            RenderAll(ComponentFragments(component, idx, old(glob.parserState.lastComponentWasGlobStar)), glob.parserState.escapedSeparator)
    ensures glob.parserState.lastComponentWasGlobStar == (component == "**")
  {
    var isGlobStar := false;
    var state := glob.parserState;
    ghost var esep := state.escapedSeparator;
    ghost var before := state.regexBuffer;
    ghost var lead := if idx != 0 then esep else "";

    if component == "**" {
      isGlobStar := true;
      // Only add another globstar if the last component wasn't a globstar
      if !state.lastComponentWasGlobStar {
        state.regexBuffer := state.regexBuffer + "(?:";
        if idx != 0 {
          state.regexBuffer := state.regexBuffer + state.escapedSeparator;
        }
        assert state.regexBuffer == before + "(?:" + lead;
        state.regexBuffer := state.regexBuffer + GlobStarComponent;
        state.regexBuffer := state.regexBuffer + ")?";
        AppendFour(before, "(?:", lead, GlobStarComponent, ")?");
        RenderAllOne(GlobStarGroup(idx != 0), esep);
      } else {
        assert before + RenderAll([], esep) == before;
      }
    } else if component == "*" {
      if idx != 0 {
        state.regexBuffer := state.regexBuffer + state.escapedSeparator;
      }
      assert state.regexBuffer == before + lead;
      state.regexBuffer := state.regexBuffer + "[^";
      state.regexBuffer := state.regexBuffer + state.escapedSeparator;
      state.regexBuffer := state.regexBuffer + "]+";
      AppendFour(before, lead, "[^", esep, "]+");
      AppendThree(lead, "[^", esep, "]+");
      RenderLead(idx, esep);
      RenderAllAppend(LeadFragments(idx), [StarComponent], esep);
      RenderAllOne(StarComponent, esep);
    } else {
      if idx != 0 {
        state.regexBuffer := state.regexBuffer + state.escapedSeparator;
      }
      assert state.regexBuffer == before + lead;

      // Scan through, expanding ? and *
      ExpandComponent(component, state);
      ghost var parts := PartFragments(SplitAll(component, ExpanderSet()));
      AppendTwo(before, lead, RenderAll(parts, esep));
      RenderLead(idx, esep);
      RenderAllAppend(LeadFragments(idx), parts, esep);
    }

    state.lastComponentWasGlobStar := isGlobStar;
  }

  /** The body after one more scanner token. */
  lemma BodyOfSnoc(tokens: seq<string>, component: string, separator: char)
    ensures var prior := BodyOf(tokens, separator);
            BodyOf(tokens + [component], separator) ==
            if component == [separator] then prior
            else Body(prior.frags + ComponentFragments(component, |tokens|, prior.lastWasGlobStar), component == "**")
  {
    assert (tokens + [component])[..|tokens|] == tokens;
  }

  /** One more component passed to parseComponent: the buffer grows by its fragments. */
  lemma BodyStep(start: string, written: string, tokens: seq<string>, component: string, separator: char, escapedSeparator: string)
    requires written == start + RenderAll(BodyOf(tokens, separator).frags, escapedSeparator)
    requires component != [separator]
    ensures written + RenderAll(ComponentFragments(component, |tokens|, BodyOf(tokens, separator).lastWasGlobStar), escapedSeparator) ==
            start + RenderAll(BodyOf(tokens + [component], separator).frags, escapedSeparator)
    ensures BodyOf(tokens + [component], separator).lastWasGlobStar == (component == "**")
  {
    var prior := BodyOf(tokens, separator);
    var more := ComponentFragments(component, |tokens|, prior.lastWasGlobStar);
    BodyOfSnoc(tokens, component, separator);
    RenderAllAppend(prior.frags, more, escapedSeparator);
    AppendTwo(start, RenderAll(prior.frags, escapedSeparator), RenderAll(more, escapedSeparator));
  }

  /**
   * Compile's loop over the scanner tokens of the pattern: separator-only tokens are skipped and
   * every other token is passed to parseComponent with its index.
   */
  method ParseComponents(pattern: string, glob: GlobImpl)
    requires glob.parserState != null && !glob.parserState.lastComponentWasGlobStar
    modifies glob.parserState
    ensures glob.parserState == old(glob.parserState)
    ensures glob.parserState.regexBuffer ==
            old(glob.parserState.regexBuffer) +
            RenderAll(BodyOf(SplitAll(pattern, {glob.parserState.options.separator}), glob.parserState.options.separator).frags,
                      glob.parserState.escapedSeparator)
  {
    var state := glob.parserState;
    var separator := state.options.separator;
    ghost var esep := state.escapedSeparator;
    ghost var start := state.regexBuffer;
    ghost var seps := SetOf([separator]);
    SetOfMembers([separator]);
    assert seps == {separator};
    ghost var tokens: seq<string> := [];
    var data := pattern;
    var i := 0;
    assert start + RenderAll([], esep) == start;
    while true
      invariant SplitAll(pattern, seps) == tokens + SplitAll(data, seps)
      invariant i == |tokens|
      invariant state.regexBuffer == start + RenderAll(BodyOf(tokens, separator).frags, esep)
      invariant state.lastComponentWasGlobStar == BodyOf(tokens, separator).lastWasGlobStar
      decreases |data|
    {
      var advance, token := SeparatorsScanner([separator], data, true);
      if token.None? {
        assert data == [] && tokens + [] == tokens;
        break;
      }
      var component := token.value;
      ScannerStep(seps, data, advance, component);
      AppendTwo(tokens, [component], SplitAll(data[advance..], seps));
      data := data[advance..];

      // If the component is just a separator, discard it
      if component == [separator] {
        BodyOfSnoc(tokens, component, separator);
        tokens := tokens + [component];
        i := i + 1;
        continue;
      }

      BodyStep(start, state.regexBuffer, tokens, component, separator, esep);
      ParseComponent(component, i, glob);
      tokens := tokens + [component];
      i := i + 1;
    }
  }

  /** Compile: turns a glob pattern into a Glob, or reports a separator that is an expander. */
  method Compile(pattern: string, options: Option<Options>) returns (r: Result<Glob, CompileError>)
    ensures r == CompileSpec(pattern, options)
  {
    var trimmed := TrimSpace(pattern);
    var opts: Options;
    if options.None? {
      opts := DefaultOptions;
    } else {
      opts := options.value;
      // Check that the separator is not an expander
      var k := 0;
      while k < |Expanders|
        invariant 0 <= k <= |Expanders|
        invariant forall j :: 0 <= j < k ==> opts.separator != Expanders[j]
      {
        if opts.separator == Expanders[k] {
          return Failure(SeparatorNotAllowed(opts.separator));
        }
        k := k + 1;
      }
    }
    assert opts == OrDefault(options) && opts.separator !in Expanders;

    var state := new ParserState(opts, EscapeRegexComponent([opts.separator]));
    var glob := new GlobImpl(trimmed, state);

    if opts.matchAtStart {
      state.regexBuffer := state.regexBuffer + "^";
    }
    ghost var start := state.regexBuffer;
    assert start == if opts.matchAtStart then "^" else "";

    // 1. Parse negation prefixes
    var rest := ParseNegation(trimmed, glob);

    // 2. Split into a series of path portion matches
    ParseComponents(rest, glob);
    ghost var body := RenderAll(BodyOf(SplitAll(rest, {opts.separator}), opts.separator).frags, EscapedSeparator(opts.separator));
    assert state.regexBuffer == start + body;

    if opts.matchAtEnd {
      state.regexBuffer := state.regexBuffer + "$";
    } else {
      assert state.regexBuffer == start + body + "";
    }
    assert state.regexBuffer == RegexText(rest, opts);

    var regexString := state.regexBuffer;
    glob.parserState := null;
    glob.regex := regexString;
    r := Success(Glob(glob.globPattern, glob.negated, glob.regex));
    CompileSpecSuccess(pattern, options);
  }
}
