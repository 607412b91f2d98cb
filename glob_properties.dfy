/**
 * What the pattern compiler promises: the outcome of Compile for each kind of options, the anchors,
 * how separators and globstars collapse, and how a mixed component is rendered rune by rune.
 * Everything here is stated about CompileSpec and RegexText, which Glob.Compile is proved to compute.
 */
module GlobProperties {
  import opened Wrappers
  import opened GlobOptions
  import opened Utils
  import opened Glob

  // ---------------------------------------------------------------------------
  // Options and the outcome of Compile
  // ---------------------------------------------------------------------------

  /** Compile fails exactly when options are given and their separator is an expander, and says which separator. */
  lemma CompileRejectsExpanderSeparator(pattern: string, options: Option<Options>)
    ensures CompileSpec(pattern, options).Failure? <==> options.Some? && options.value.separator in Expanders
    ensures CompileSpec(pattern, options).Failure? ==>
              CompileSpec(pattern, options).error == SeparatorNotAllowed(options.value.separator)
  {
  }

  /** Nil options compile exactly as DefaultOptions would, and are never rejected. */
  lemma NilOptionsUseDefaults(pattern: string)
    ensures CompileSpec(pattern, None) == CompileSpec(pattern, Some(DefaultOptions))
    ensures CompileSpec(pattern, None).Success?
  {
    assert DefaultOptions.separator !in Expanders;
  }

  /**
   * A compiled glob reports the trimmed pattern, `!` included, and is negative exactly when the
   * trimmed pattern holds an odd number of `!`, wherever they stand.
   */
  lemma CompiledGlobKeepsPattern(pattern: string, options: Option<Options>)
    requires CompileSpec(pattern, options).Success?
    ensures var g := CompileSpec(pattern, options).value;
            g.String() == TrimSpace(pattern) &&
            g.IsNegative() == (CountBangs(TrimSpace(pattern)) % 2 == 1)
  {
  }

  /** When every `!` of the trimmed pattern is leading, the glob is negative exactly when there is an odd number of them. */
  lemma CompiledGlobLeadingNegation(pattern: string, options: Option<Options>)
    requires CompileSpec(pattern, options).Success?
    requires forall j :: LeadingBangs(TrimSpace(pattern)) <= j < |TrimSpace(pattern)| ==> TrimSpace(pattern)[j] != '!'
    ensures CompileSpec(pattern, options).value.IsNegative() == (LeadingBangs(TrimSpace(pattern)) % 2 == 1)
    ensures CompileSpec(pattern, options).value.regex ==
            RegexText(TrimSpace(pattern)[LeadingBangs(TrimSpace(pattern))..], OrDefault(options))
  {
    NegationAgreesOnLeadingBangs(TrimSpace(pattern));
  }

  // ---------------------------------------------------------------------------
  // Anchors
  // ---------------------------------------------------------------------------

  /** No fragment's rendering starts with `^`: every metacharacter in it is quoted. */
  lemma {:induction false} RenderAllNoCaret(fs: seq<Fragment>, escapedSeparator: string)
    requires escapedSeparator == [] || escapedSeparator[0] != '^'
    ensures var t := RenderAll(fs, escapedSeparator); t == [] || t[0] != '^'
    decreases |fs|
  {
    if fs != [] {
      RenderAllNoCaret(fs[1..], escapedSeparator);
      var head := Render(fs[0], escapedSeparator);
      var tail := RenderAll(fs[1..], escapedSeparator);
      if fs[0].Literal? {
        var text := fs[0].text;
        if text != [] {
          assert head[0] == (if IsRegexMeta(text[0]) then '\\' else text[0]);
        }
      }
      assert RenderAll(fs, escapedSeparator) == head + tail;
      if head != [] {
        assert (head + tail)[0] == head[0];
      } else {
        assert head + tail == tail;
      }
    }
  }

  lemma EscapedSeparatorNoCaret(separator: char)
    ensures var e := EscapedSeparator(separator); e != [] && e[0] != '^'
  {
    assert EscapedSeparator(separator) == (if IsRegexMeta(separator) then ['\\', separator] else [separator]) + [];
  }

  /** The regex text starts with `^` exactly when the options ask for a match at the start. */
  lemma RegexStartsWithCaretIff(rest: string, options: Options)
    ensures var t := RegexText(rest, options);
            (t != [] && t[0] == '^') <==> options.matchAtStart
  {
    var sep := options.separator;
    var body := RenderAll(BodyOf(SplitAll(rest, {sep}), sep).frags, EscapedSeparator(sep));
    var tail := if options.matchAtEnd then "$" else "";
    EscapedSeparatorNoCaret(sep);
    RenderAllNoCaret(BodyOf(SplitAll(rest, {sep}), sep).frags, EscapedSeparator(sep));
    if options.matchAtStart {
      assert RegexText(rest, options) == "^" + (body + tail);
    } else {
      assert RegexText(rest, options) == body + tail;
      if body == [] {
        assert body + tail == tail;
      } else {
        assert (body + tail)[0] == body[0];
      }
    }
  }

  /**
   * The anchors are independent of each other and of the body: asking for a match at the start puts
   * `^` in front of the text, and asking for a match at the end puts `$` after it.
   */
  lemma AnchorsWrapTheBody(rest: string, options: Options)
    ensures RegexText(rest, options.(matchAtStart := true)) == "^" + RegexText(rest, options.(matchAtStart := false))
    ensures RegexText(rest, options.(matchAtEnd := true)) == RegexText(rest, options.(matchAtEnd := false)) + "$"
  {
    var sep := options.separator;
    var body := RenderAll(BodyOf(SplitAll(rest, {sep}), sep).frags, EscapedSeparator(sep));
    var head := if options.matchAtStart then "^" else "";
    var tail := if options.matchAtEnd then "$" else "";
    assert RegexText(rest, options.(matchAtStart := true)) == "^" + body + tail;
    assert RegexText(rest, options.(matchAtStart := false)) == "" + body + tail;
    AppendTwo("^", body, tail);
    assert "" + body + tail == body + tail;
    assert RegexText(rest, options.(matchAtEnd := true)) == head + body + "$";
    assert RegexText(rest, options.(matchAtEnd := false)) == head + body + "";
    assert head + body + "" == head + body;
  }

  // ---------------------------------------------------------------------------
  // Components, read from the front
  // ---------------------------------------------------------------------------

  /**
   * The fragments for the scanner tokens, read from the front: atStart says whether the next token
   * is the first scanner token, lastWasGlobStar whether the last component passed on was `**`.
   * A separator-only token writes nothing and leaves the globstar flag alone.
   */
  function BodyFrom(tokens: seq<string>, separator: char, atStart: bool, lastWasGlobStar: bool): seq<Fragment>
    decreases |tokens|
  {
    if tokens == [] then []
    else if tokens[0] == [separator] then BodyFrom(tokens[1..], separator, false, lastWasGlobStar)
    else
      ComponentFragments(tokens[0], if atStart then 0 else 1, lastWasGlobStar) +
      BodyFrom(tokens[1..], separator, false, tokens[0] == "**")
  }

  /** Only whether a component is the first scanner token matters, not its exact index. */
  lemma ComponentIndexOnlyFirst(component: string, idx: nat, lastWasGlobStar: bool)
    ensures ComponentFragments(component, idx, lastWasGlobStar) ==
            ComponentFragments(component, if idx == 0 then 0 else 1, lastWasGlobStar)
  {
  }

  lemma {:induction false} BodyOfThenBodyFrom(t: seq<string>, u: seq<string>, separator: char)
    ensures BodyFrom(t + u, separator, true, false) ==
            BodyOf(t, separator).frags + BodyFrom(u, separator, t == [], BodyOf(t, separator).lastWasGlobStar)
    decreases |t|
  {
    if t == [] {
      assert t + u == u;
    } else {
      var t', c := t[..|t| - 1], t[|t| - 1];
      assert t == t' + [c];
      assert t + u == t' + ([c] + u);
      BodyOfThenBodyFrom(t', [c] + u, separator);
      BodyOfSnoc(t', c, separator);
      var prior := BodyOf(t', separator);
      assert ([c] + u)[0] == c && ([c] + u)[1..] == u;
      if c != [separator] {
        ComponentIndexOnlyFirst(c, |t'|, prior.lastWasGlobStar);
        var more := ComponentFragments(c, |t'|, prior.lastWasGlobStar);
        AppendTwo(prior.frags, more, BodyFrom(u, separator, false, c == "**"));
      }
    }
  }

  /** Compile's loop, which keeps the body from the back, writes what BodyFrom reads from the front. */
  lemma BodyOfIsBodyFrom(tokens: seq<string>, separator: char)
    ensures BodyOf(tokens, separator).frags == BodyFrom(tokens, separator, true, false)
  {
    BodyOfThenBodyFrom(tokens, [], separator);
    assert tokens + [] == tokens;
  }

  /** The regex text, with the body read from the front. */
  lemma RegexTextFromTheFront(rest: string, options: Options)
    ensures RegexText(rest, options) ==
            (if options.matchAtStart then "^" else "") +
            RenderAll(BodyFrom(SplitAll(rest, {options.separator}), options.separator, true, false), EscapedSeparator(options.separator)) +
            (if options.matchAtEnd then "$" else "")
  {
    BodyOfIsBodyFrom(SplitAll(rest, {options.separator}), options.separator);
  }

  // ---------------------------------------------------------------------------
  // Separators
  // ---------------------------------------------------------------------------

  /** Two separator tokens in a row write what one does. */
  lemma {:induction false} SeparatorTokensCollapse(t: seq<string>, u: seq<string>, separator: char, atStart: bool, lastWasGlobStar: bool)
    ensures BodyFrom(t + [[separator], [separator]] + u, separator, atStart, lastWasGlobStar) ==
            BodyFrom(t + [[separator]] + u, separator, atStart, lastWasGlobStar)
    decreases |t|
  {
    var s := [separator];
    if t == [] {
      assert t + [s, s] + u == [s] + ([s] + u);
      assert t + [s] + u == [s] + u;
      assert ([s] + ([s] + u))[1..] == [s] + u;
      assert ([s] + u)[1..] == u;
    } else {
      assert (t + [s, s] + u)[0] == t[0] && (t + [s, s] + u)[1..] == t[1..] + [s, s] + u;
      assert (t + [s] + u)[0] == t[0] && (t + [s] + u)[1..] == t[1..] + [s] + u;
      SeparatorTokensCollapse(t[1..], u, separator, false, lastWasGlobStar);
      SeparatorTokensCollapse(t[1..], u, separator, false, t[0] == "**");
    }
  }

  /** A run of separators in the pattern writes what a single separator does. */
  lemma SeparatorRunsCollapse(x: string, y: string, options: Options)
    ensures var s := options.separator;
            RegexText(x + [s, s] + y, options) == RegexText(x + [s] + y, options)
  {
    var s := options.separator;
    var seps: set<char> := {s};
    var xs, ys := SplitAll(x, seps), SplitAll(y, seps);
    assert x + [s, s] + y == x + [s] + ([s] + y);
    SplitAllAtDelimiter(x, s, [s] + y, seps);
    SplitAllLeadingDelimiter([s] + y, seps);
    assert ([s] + y)[1..] == y;
    assert SplitAll(x + [s, s] + y, seps) == xs + [[s], [s]] + ys;
    SplitAllAtDelimiter(x, s, y, seps);
    SeparatorTokensCollapse(xs, ys, s, true, false);
    RegexTextFromTheFront(x + [s, s] + y, options);
    RegexTextFromTheFront(x + [s] + y, options);
  }

  /** A trailing separator writes nothing. */
  lemma TrailingSeparatorIgnored(x: string, options: Options)
    ensures RegexText(x + [options.separator], options) == RegexText(x, options)
  {
    var s := options.separator;
    var seps: set<char> := {s};
    SplitAllAtDelimiter(x, s, [], seps);
    assert x + [s] + [] == x + [s];
    assert SplitAll([], seps) == [];
    assert SplitAll(x + [s], seps) == SplitAll(x, seps) + [[s]];
    BodyOfSnoc(SplitAll(x, seps), [s], s);
  }

  // ---------------------------------------------------------------------------
  // Globstars
  // ---------------------------------------------------------------------------

  /** `**`, a separator and `**` again write what one `**` does: the flag survives the separator. */
  lemma {:induction false} GlobStarTokensCollapse(t: seq<string>, u: seq<string>, separator: char, atStart: bool, lastWasGlobStar: bool)
    ensures BodyFrom(t + ["**", [separator], "**"] + u, separator, atStart, lastWasGlobStar) ==
            BodyFrom(t + ["**"] + u, separator, atStart, lastWasGlobStar)
    decreases |t|
  {
    var s := [separator];
    if t == [] {
      var first := ComponentFragments("**", if atStart then 0 else 1, lastWasGlobStar);
      var long := ["**", s, "**"] + u;
      assert t + ["**", s, "**"] + u == long;
      assert long[0] == "**" && long[1..] == [s] + (["**"] + u);
      assert ([s] + (["**"] + u))[0] == s && ([s] + (["**"] + u))[1..] == ["**"] + u;
      assert (["**"] + u)[0] == "**" && (["**"] + u)[1..] == u;
      assert t + ["**"] + u == ["**"] + u;
      assert ComponentFragments("**", 1, true) == [];
      assert BodyFrom(["**"] + u, separator, false, true) == [] + BodyFrom(u, separator, false, true);
    } else {
      assert (t + ["**", s, "**"] + u)[0] == t[0] && (t + ["**", s, "**"] + u)[1..] == t[1..] + ["**", s, "**"] + u;
      assert (t + ["**"] + u)[0] == t[0] && (t + ["**"] + u)[1..] == t[1..] + ["**"] + u;
      GlobStarTokensCollapse(t[1..], u, separator, false, lastWasGlobStar);
      GlobStarTokensCollapse(t[1..], u, separator, false, t[0] == "**");
    }
  }

  /** A `**` standing between separators is a token of its own. */
  lemma SplitAroundGlobStar(x: string, y: string, separator: char)
    requires separator != '*'
    requires x == [] || x[|x| - 1] == separator
    requires y == [] || y[0] == separator
    ensures SplitAll(x + "**" + y, {separator}) == SplitAll(x, {separator}) + ["**"] + SplitAll(y, {separator})
  {
    var seps: set<char> := {separator};
    var g := "**";
    assert IsRunToken(g, seps);
    SplitAllRun(g, seps);
    SplitAllJoin(g, y, seps);
    assert g + y != [] && (g + y)[0] == '*';
    SplitAllJoin(x, g + y, seps);
    AppendTwo(x, g, y);
    AppendTwo(SplitAll(x, seps), [g], SplitAll(y, seps));
  }

  lemma AppendThreeTokens<T>(xs: seq<T>, a: T, b: T, c: T, ys: seq<T>)
    ensures (xs + [a] + []) + [b] + ([] + [c] + ys) == xs + [a, b, c] + ys
  {
  }

  /** Two `**` with one separator between them are three tokens. */
  lemma SplitAroundGlobStarPair(x: string, y: string, separator: char)
    requires separator != '*'
    requires x == [] || x[|x| - 1] == separator
    requires y == [] || y[0] == separator
    ensures SplitAll(x + "**" + [separator] + "**" + y, {separator}) ==
            SplitAll(x, {separator}) + ["**", [separator], "**"] + SplitAll(y, {separator})
  {
    var seps: set<char> := {separator};
    var g := "**";
    AppendTwo(x + g + [separator], g, y);
    SplitAllAtDelimiter(x + g, separator, g + y, seps);
    SplitAroundGlobStar(x, [], separator);
    assert x + g + [] == x + g;
    SplitAroundGlobStar([], y, separator);
    assert [] + g + y == g + y;
    assert SplitAll([], seps) == [];
    AppendThreeTokens(SplitAll(x, seps), g, [separator], g, SplitAll(y, seps));
  }

  /**
   * Consecutive globstar components collapse: x, `**`, a separator, `**`, y compiles as x, `**`, y
   * when the globstars stand between separators (or the ends of the pattern).
   */
  lemma GlobStarsCollapse(x: string, y: string, options: Options)
    requires options.separator !in Expanders
    requires x == [] || x[|x| - 1] == options.separator
    requires y == [] || y[0] == options.separator
    ensures var s := options.separator;
            RegexText(x + "**" + [s] + "**" + y, options) == RegexText(x + "**" + y, options)
  {
    var s := options.separator;
    SplitAroundGlobStarPair(x, y, s);
    SplitAroundGlobStar(x, y, s);
    GlobStarTokensCollapse(SplitAll(x, {s}), SplitAll(y, {s}), s, true, false);
    RegexTextFromTheFront(x + "**" + [s] + "**" + y, options);
    RegexTextFromTheFront(x + "**" + y, options);
  }

  // ---------------------------------------------------------------------------
  // What one component writes
  // ---------------------------------------------------------------------------

  /** The regex for one rune of a mixed component: `?` and `*` expand, anything else is quoted. */
  function ExpandRune(r: char, escapedSeparator: string): string {
    if r == '?' then "[^" + escapedSeparator + "]"
    else if r == '*' then "[^" + escapedSeparator + "]*"
    else EscapeRegexComponent([r])
  }

  /** A mixed component rendered rune by rune. */
  function ExpandRunes(c: string, escapedSeparator: string): string
    decreases |c|
  {
    if c == [] then [] else ExpandRune(c[0], escapedSeparator) + ExpandRunes(c[1..], escapedSeparator)
  }

  lemma {:induction false} ExpandRunesAppend(a: string, b: string, escapedSeparator: string)
    ensures ExpandRunes(a + b, escapedSeparator) == ExpandRunes(a, escapedSeparator) + ExpandRunes(b, escapedSeparator)
    decreases |a|
  {
    if a == [] {
      assert a + b == b;
    } else {
      assert (a + b)[0] == a[0] && (a + b)[1..] == a[1..] + b;
      ExpandRunesAppend(a[1..], b, escapedSeparator);
      AppendTwo(ExpandRune(a[0], escapedSeparator), ExpandRunes(a[1..], escapedSeparator), ExpandRunes(b, escapedSeparator));
    }
  }

  /** Without expanders, quoting a run is quoting it rune by rune. */
  lemma {:induction false} QuotedRunExpands(run: string, escapedSeparator: string)
    requires forall j :: 0 <= j < |run| ==> run[j] != '?' && run[j] != '*'
    ensures EscapeRegexComponent(run) == ExpandRunes(run, escapedSeparator)
    decreases |run|
  {
    if run != [] {
      QuotedRunExpands(run[1..], escapedSeparator);
      var head := if IsRegexMeta(run[0]) then ['\\', run[0]] else [run[0]];
      assert [run[0]][1..] == [];
      assert EscapeRegexComponent([run[0]]) == head + [];
      assert ExpandRune(run[0], escapedSeparator) == head;
      assert EscapeRegexComponent(run) == head + EscapeRegexComponent(run[1..]);
    }
  }

  /** Each part of a mixed component renders as its runes expanded. */
  lemma PartExpandsRunes(part: string, escapedSeparator: string)
    requires IsDelimiterToken(part, ExpanderSet()) || IsRunToken(part, ExpanderSet())
    ensures Render(PartFragment(part), escapedSeparator) == ExpandRunes(part, escapedSeparator)
  {
    SetOfMembers(Expanders);
    if IsDelimiterToken(part, ExpanderSet()) {
      assert part == [part[0]];
      assert ExpandRunes(part, escapedSeparator) == ExpandRune(part[0], escapedSeparator) + [];
    } else {
      assert part[0] != '?' && part[0] != '*';
      QuotedRunExpands(part, escapedSeparator);
    }
  }

  lemma RenderPartsCons(part: string, parts: seq<string>, escapedSeparator: string)
    ensures RenderAll(PartFragments([part] + parts), escapedSeparator) ==
            Render(PartFragment(part), escapedSeparator) + RenderAll(PartFragments(parts), escapedSeparator)
  {
    assert ([part] + parts)[0] == part && ([part] + parts)[1..] == parts;
    var fs := [PartFragment(part)] + PartFragments(parts);
    assert fs[0] == PartFragment(part) && fs[1..] == PartFragments(parts);
  }

  /** The parts a mixed component splits into render as its runes expanded one by one. */
  lemma {:induction false} MixedComponentExpandsRunes(c: string, escapedSeparator: string)
    ensures RenderAll(PartFragments(SplitAll(c, ExpanderSet())), escapedSeparator) == ExpandRunes(c, escapedSeparator)
    decreases |c|
  {
    if c != [] {
      var e := ExpanderSet();
      var st := SplitStep(e, c, true);
      SplitStepShape(e, c, true);
      var tok, rest := st.token.value, c[st.advance..];
      ScannerStep(e, c, st.advance, tok);
      RenderPartsCons(tok, SplitAll(rest, e), escapedSeparator);
      PartExpandsRunes(tok, escapedSeparator);
      MixedComponentExpandsRunes(rest, escapedSeparator);
      ExpandRunesAppend(tok, rest, escapedSeparator);
    }
  }

  /**
   * What parseComponent writes for one component: a `**` writes the optional group, with the escaped
   * separator inside unless it is the first scanner token, and nothing at all right after another `**`;
   * a `*` writes the escaped separator (unless first) and `[^sep]+`; any other component writes the
   * escaped separator (unless first) and its runes, `?` as `[^sep]`, `*` as `[^sep]*`, the rest quoted.
   */
  lemma ComponentText(component: string, idx: nat, lastWasGlobStar: bool, escapedSeparator: string)
    ensures var lead := if idx != 0 then escapedSeparator else "";
            RenderAll(ComponentFragments(component, idx, lastWasGlobStar), escapedSeparator) ==
            if component == "**" then
              (if lastWasGlobStar then "" else "(?:" + lead + ".+" + ")?")
            else if component == "*" then lead + "[^" + escapedSeparator + "]+"
            else lead + ExpandRunes(component, escapedSeparator)
  {
    var lead := if idx != 0 then escapedSeparator else "";
    RenderLead(idx, escapedSeparator);
    if component == "**" {
      if !lastWasGlobStar {
        RenderAllOne(GlobStarGroup(idx != 0), escapedSeparator);
      }
    } else if component == "*" {
      RenderAllAppend(LeadFragments(idx), [StarComponent], escapedSeparator);
      RenderAllOne(StarComponent, escapedSeparator);
      AppendThree(lead, "[^", escapedSeparator, "]+");
    } else {
      var parts := PartFragments(SplitAll(component, ExpanderSet()));
      RenderAllAppend(LeadFragments(idx), parts, escapedSeparator);
      MixedComponentExpandsRunes(component, escapedSeparator);
    }
  }
}
