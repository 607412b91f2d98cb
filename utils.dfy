/** Escaping and splitting helpers (utils.go). */
module Utils {
  import opened Wrappers
  import opened GlobOptions

  // ---------------------------------------------------------------------------
  // escapeRegexComponent
  // ---------------------------------------------------------------------------

  /** The characters of the class `[-\/\\^$*+?.()|[\]{}]` that escapeRegexComponent quotes. */
  predicate IsRegexMeta(c: char) {
    c == '-' || c == '/' || c == '\\' || c == '^' || c == '$' || c == '*' || c == '+' || c == '?' ||
    c == '.' || c == '(' || c == ')' || c == '|' || c == '[' || c == ']' || c == '{' || c == '}'
  }

  /** Puts a backslash in front of every regex metacharacter and copies every other character. */
  function EscapeRegexComponent(s: string): (r: string)
    ensures |s| <= |r| <= 2 * |s|
    decreases |s|
  {
    if s == [] then []
    else (if IsRegexMeta(s[0]) then ['\\', s[0]] else [s[0]]) + EscapeRegexComponent(s[1..])
  }

  /** Drops each quoting backslash and keeps the character it quotes. */
  function UnescapeRegex(r: string): string
    decreases |r|
  {
    if r == [] then []
    else if r[0] == '\\' && |r| >= 2 then [r[1]] + UnescapeRegex(r[2..])
    else [r[0]] + UnescapeRegex(r[1..])
  }

  /** Regex text in which every metacharacter is quoted by a backslash, and only those are. */
  predicate IsQuoted(r: string)
    decreases |r|
  {
    r == [] ||
    (|r| >= 2 && r[0] == '\\' && IsRegexMeta(r[1]) && IsQuoted(r[2..])) ||
    (!IsRegexMeta(r[0]) && IsQuoted(r[1..]))
  }

  /** The escaped text is quoted, and removing the inserted backslashes gives back the input. */
  lemma {:induction false} EscapeRegexRoundTrip(s: string)
    ensures IsQuoted(EscapeRegexComponent(s))
    ensures UnescapeRegex(EscapeRegexComponent(s)) == s
    decreases |s|
  {
    if s != [] {
      EscapeRegexRoundTrip(s[1..]);
      var rest := EscapeRegexComponent(s[1..]);
      if IsRegexMeta(s[0]) {
        assert EscapeRegexComponent(s) == ['\\', s[0]] + rest;
        assert (['\\', s[0]] + rest)[2..] == rest;
      } else {
        assert EscapeRegexComponent(s) == [s[0]] + rest;
        assert ([s[0]] + rest)[1..] == rest;
      }
    }
  }

  /** The converse: every quoted text is the escaping of exactly one string. */
  lemma {:induction false} QuotedIsEscaped(r: string)
    requires IsQuoted(r)
    ensures EscapeRegexComponent(UnescapeRegex(r)) == r
    decreases |r|
  {
    if r != [] {
      if |r| >= 2 && r[0] == '\\' && IsRegexMeta(r[1]) && IsQuoted(r[2..]) {
        QuotedIsEscaped(r[2..]);
        var u := UnescapeRegex(r[2..]);
        assert ([r[1]] + u)[1..] == u;
        assert r == ['\\', r[1]] + r[2..];
      } else {
        QuotedIsEscaped(r[1..]);
        var u := UnescapeRegex(r[1..]);
        assert ([r[0]] + u)[1..] == u;
        assert r == [r[0]] + r[1..];
      }
    }
  }

  // ---------------------------------------------------------------------------
  // Appending to a buffer
  // ---------------------------------------------------------------------------

  /** Writing pieces one after another writes their concatenation. */
  lemma AppendTwo<T>(w: seq<T>, a: seq<T>, b: seq<T>)
    ensures w + a + b == w + (a + b)
  {
  }

  lemma AppendThree<T>(w: seq<T>, a: seq<T>, b: seq<T>, c: seq<T>)
    ensures w + a + b + c == w + (a + b + c)
  {
  }

  lemma AppendFour<T>(w: seq<T>, a: seq<T>, b: seq<T>, c: seq<T>, d: seq<T>)
    ensures w + a + b + c + d == w + (a + b + c + d)
  {
  }

  // ---------------------------------------------------------------------------
  // separatorsScanner
  // ---------------------------------------------------------------------------

  /** What the split function returns: the advance and the token (None for Go's nil); its error is always nil. */
  datatype Split = Split(advance: nat, token: Option<string>)

  predicate IsDelimiterToken(t: string, seps: set<char>) {
    |t| == 1 && t[0] in seps
  }

  predicate IsRunToken(t: string, seps: set<char>) {
    t != [] && forall j :: 0 <= j < |t| ==> t[j] !in seps
  }

  /** The index of the first delimiter in data, or |data| when there is none. */
  function FirstDelimiter(data: string, seps: set<char>): (i: nat)
    ensures i <= |data|
    decreases |data|
  {
    if data == [] || data[0] in seps then 0 else 1 + FirstDelimiter(data[1..], seps)
  }

  /** FirstDelimiter finds the first delimiter: none comes before it. */
  lemma {:induction false} FirstDelimiterIsFirst(data: string, seps: set<char>)
    ensures var i := FirstDelimiter(data, seps);
            (forall j :: 0 <= j < i ==> data[j] !in seps) && (i < |data| ==> data[i] in seps)
    decreases |data|
  {
    if data != [] && data[0] !in seps {
      FirstDelimiterIsFirst(data[1..], seps);
    }
  }

  /** The split function that separatorsScanner(separators) returns, applied to (data, atEOF). */
  function SplitStep(seps: set<char>, data: string, atEOF: bool): (r: Split)
    ensures r.token.None? ==> r.advance == 0
    ensures r.token.Some? ==> 0 < r.advance <= |data| && r.token.value == data[..r.advance]
    ensures atEOF && data != [] ==> r.token.Some?
  {
    if atEOF && |data| == 0 then Split(0, None)
    else
      var i := FirstDelimiter(data, seps);
      if i < |data| then
        if i == 0 then Split(1, Some([data[0]])) else Split(i, Some(data[..i]))
      else if atEOF then Split(|data|, Some(data))
      else Split(0, None)
  }

  /**
   * What one split step does: at the end of empty input, or short of input without a delimiter, it
   * asks for more (no token, no advance); a leading delimiter is a token of its own; otherwise the
   * token is the run up to the next delimiter, or to the end once no more data will come.
   */
  lemma SplitStepShape(seps: set<char>, data: string, atEOF: bool)
    ensures var r := SplitStep(seps, data, atEOF);
            (atEOF && data == [] ==> r == Split(0, None)) &&
            (r.token.None? <==> (atEOF && data == []) || (!atEOF && forall j :: 0 <= j < |data| ==> data[j] !in seps)) &&
            (data != [] && data[0] in seps ==> r == Split(1, Some([data[0]]))) &&
            (data != [] && data[0] !in seps && r.token.Some? ==>
               IsRunToken(r.token.value, seps) &&
               (r.advance < |data| ==> data[r.advance] in seps) &&
               (r.advance == |data| ==> atEOF))
  {
    FirstDelimiterIsFirst(data, seps);
  }

  /** The set of the runes in s, collected from the left as separatorsScanner builds it. */
  function SetOf(s: seq<char>): set<char>
    decreases |s|
  {
    if s == [] then {} else SetOf(s[..|s| - 1]) + {s[|s| - 1]}
  }

  lemma {:induction false} SetOfMembers(s: seq<char>)
    ensures forall c :: c in SetOf(s) <==> c in s
    decreases |s|
  {
    if s != [] {
      SetOfMembers(s[..|s| - 1]);
      assert s == s[..|s| - 1] + [s[|s| - 1]];
    }
  }

  /** The closure separatorsScanner(separators) builds, called on (data, atEOF). */
  method SeparatorsScanner(separators: seq<char>, data: string, atEOF: bool) returns (advance: nat, token: Option<string>)
    ensures Split(advance, token) == SplitStep(SetOf(separators), data, atEOF)
  {
    if atEOF && |data| == 0 {
      return 0, None;
    }
    var seps: set<char> := {};
    var k := 0;
    while k < |separators|
      invariant 0 <= k <= |separators|
      invariant seps == SetOf(separators[..k])
    {
      assert separators[..k + 1][..k] == separators[..k];
      seps := seps + {separators[k]};
      k := k + 1;
    }
    assert separators[..k] == separators;
    FirstDelimiterIsFirst(data, seps);
    var i := 0;
    while i < |data|
      invariant 0 <= i <= |data|
      invariant forall j :: 0 <= j < i ==> data[j] !in seps
    {
      var r := data[i];
      var width := 1;
      if r in seps {
        if i == 0 {
          return i + width, Some(data[0..i + width]);
        }
        return i, Some(data[0..i]);
      }
      i := i + width;
    }
    if atEOF && |data| > 0 {
      return |data|, Some(data[0..]);
    }
    return 0, None;
  }

  /** The tokens a bufio.Scanner using the split function yields over the whole of data. */
  function SplitAll(data: string, seps: set<char>): seq<string>
    decreases |data|
  {
    if data == [] then []
    else
      var s := SplitStep(seps, data, true);
      [s.token.value] + SplitAll(data[s.advance..], seps)
  }

  function Concat(ss: seq<string>): string {
    if ss == [] then [] else ss[0] + Concat(ss[1..])
  }

  lemma {:induction false} ConcatAppend(a: seq<string>, b: seq<string>)
    ensures Concat(a + b) == Concat(a) + Concat(b)
    decreases |a|
  {
    if a == [] {
      assert a + b == b;
    } else {
      assert (a + b)[1..] == a[1..] + b;
      ConcatAppend(a[1..], b);
    }
  }

  /** Splitting loses nothing: the tokens concatenate back to the input. */
  lemma {:induction false} SplitAllConcat(data: string, seps: set<char>)
    ensures Concat(SplitAll(data, seps)) == data
    decreases |data|
  {
    if data != [] {
      var s := SplitStep(seps, data, true);
      SplitAllConcat(data[s.advance..], seps);
      assert data == data[..s.advance] + data[s.advance..];
    }
  }

  /** Each token is one delimiter or a non-empty delimiter-free run, and a run always ends at a delimiter or at the end. */
  lemma {:induction false} SplitAllTokens(data: string, seps: set<char>)
    ensures forall i :: 0 <= i < |SplitAll(data, seps)| ==>
              IsDelimiterToken(SplitAll(data, seps)[i], seps) || IsRunToken(SplitAll(data, seps)[i], seps)
    ensures forall i :: 0 <= i < |SplitAll(data, seps)| - 1 && IsRunToken(SplitAll(data, seps)[i], seps) ==>
              IsDelimiterToken(SplitAll(data, seps)[i + 1], seps)
    decreases |data|
  {
    if data != [] {
      var s := SplitStep(seps, data, true);
      SplitStepShape(seps, data, true);
      var rest := data[s.advance..];
      SplitAllTokens(rest, seps);
      var head, tail := s.token.value, SplitAll(rest, seps);
      var t := SplitAll(data, seps);
      assert t == [head] + tail;
      forall i | 0 <= i < |t|
        ensures IsDelimiterToken(t[i], seps) || IsRunToken(t[i], seps)
      {
        if i > 0 {
          assert t[i] == tail[i - 1];
        } else {
          assert t[0] == head;
        }
      }
      forall i | 0 <= i < |t| - 1 && IsRunToken(t[i], seps)
        ensures IsDelimiterToken(t[i + 1], seps)
      {
        assert t[i + 1] == tail[i];
        if i == 0 {
          assert data[0] !in seps;
          assert rest != [] && rest[0] in seps;
          SplitAllLeadingDelimiter(rest, seps);
        } else {
          assert t[i] == tail[i - 1];
        }
      }
    }
  }

  /** A delimiter-free non-empty text is a single token. */
  lemma {:induction false} SplitAllRun(x: string, seps: set<char>)
    requires IsRunToken(x, seps)
    ensures SplitAll(x, seps) == [x]
  {
    var s := SplitStep(seps, x, true);
    SplitStepShape(seps, x, true);
    assert s.advance == |x|;
    assert x[|x|..] == [];
  }

  lemma {:induction false} FirstDelimiterPrefix(x: string, z: string, seps: set<char>)
    requires z == [] || z[0] in seps
    ensures FirstDelimiter(x + z, seps) == FirstDelimiter(x, seps)
  {
    assert forall j :: 0 <= j < |x| ==> (x + z)[j] == x[j];
    FirstDelimiterIsFirst(x, seps);
    FirstDelimiterIsFirst(x + z, seps);
    if z == [] {
      assert x + z == x;
    } else {
      assert (x + z)[|x|] == z[0];
    }
  }

  /** The first token of x does not look past a delimiter that follows x. */
  lemma {:induction false} SplitStepPrefix(x: string, z: string, seps: set<char>)
    requires x != []
    requires z == [] || z[0] in seps
    ensures SplitStep(seps, x + z, true) == SplitStep(seps, x, true)
  {
    FirstDelimiterPrefix(x, z, seps);
    var i := FirstDelimiter(x, seps);
    assert (x + z)[0] == x[0];
    assert (x + z)[..i] == x[..i];
  }

  /** A delimiter cuts the token stream: what lies on either side is split independently. */
  lemma {:induction false} SplitAllAtDelimiter(x: string, d: char, y: string, seps: set<char>)
    requires d in seps
    ensures SplitAll(x + [d] + y, seps) == SplitAll(x, seps) + [[d]] + SplitAll(y, seps)
    decreases |x|
  {
    var data := x + [d] + y;
    if x == [] {
      assert data == [d] + y;
      assert data[1..] == y;
    } else {
      assert data == x + ([d] + y);
      SplitStepPrefix(x, [d] + y, seps);
      var s := SplitStep(seps, x, true);
      assert data[s.advance..] == x[s.advance..] + [d] + y;
      SplitAllAtDelimiter(x[s.advance..], d, y, seps);
    }
  }

  lemma {:induction false} SplitAllLeadingDelimiter(b: string, seps: set<char>)
    requires b != [] && b[0] in seps
    ensures SplitAll(b, seps) == [[b[0]]] + SplitAll(b[1..], seps)
  {
    var s := SplitStep(seps, b, true);
    SplitStepShape(seps, b, true);
    assert s == Split(1, Some([b[0]]));
  }

  lemma {:induction false} SplitAllTrailingDelimiter(a: string, seps: set<char>)
    requires a != [] && a[|a| - 1] in seps
    ensures SplitAll(a, seps) == SplitAll(a[..|a| - 1], seps) + [[a[|a| - 1]]]
  {
    var a' := a[..|a| - 1];
    var d := a[|a| - 1];
    SplitAllAtDelimiter(a', d, [], seps);
    assert a' + [d] + [] == a;
    assert SplitAll([], seps) == [];
  }

  /** Text that meets at a delimiter splits as the two halves split. */
  lemma {:induction false} SplitAllJoin(a: string, b: string, seps: set<char>)
    requires a == [] || b == [] || a[|a| - 1] in seps || b[0] in seps
    ensures SplitAll(a + b, seps) == SplitAll(a, seps) + SplitAll(b, seps)
  {
    if a == [] {
      assert a + b == b;
      assert SplitAll(a, seps) == [];
    } else if b == [] {
      assert a + b == a;
      assert SplitAll(b, seps) == [];
    } else if b[0] in seps {
      var d, y := b[0], b[1..];
      assert a + b == a + [d] + y;
      SplitAllAtDelimiter(a, d, y, seps);
      SplitAllLeadingDelimiter(b, seps);
      var sa, sy := SplitAll(a, seps), SplitAll(y, seps);
      assert SplitAll(a + b, seps) == sa + [[d]] + sy;
      assert SplitAll(b, seps) == [[d]] + sy;
    } else {
      var x, d := a[..|a| - 1], a[|a| - 1];
      assert a + b == x + [d] + b;
      SplitAllAtDelimiter(x, d, b, seps);
      SplitAllTrailingDelimiter(a, seps);
      var sx, sb := SplitAll(x, seps), SplitAll(b, seps);
      assert SplitAll(a + b, seps) == sx + [[d]] + sb;
      assert SplitAll(a, seps) == sx + [[d]];
    }
  }

  // ---------------------------------------------------------------------------
  // EscapeGlobComponent
  // ---------------------------------------------------------------------------

  /** The runes EscapeGlobComponent escapes: the expanders, the separator and the escaper. */
  function RunesToEscape(separator: char): seq<char> {
    Expanders + [separator, Escaper]
  }

  predicate NeedsGlobEscape(c: char, separator: char) {
    c in RunesToEscape(separator)
  }

  /** Puts one escaper in front of each rune that needs escaping and copies every other rune. */
  function EscapeGlob(s: string, separator: char): (r: string)
    ensures |s| <= |r| <= 2 * |s|
    decreases |s|
  {
    if s == [] then []
    else (if NeedsGlobEscape(s[0], separator) then [Escaper, s[0]] else [s[0]]) + EscapeGlob(s[1..], separator)
  }

  /** Drops each escaper and keeps the rune it escapes; an unpaired escaper at the end vanishes. */
  function UnescapeGlob(s: string): string
    decreases |s|
  {
    if s == [] then []
    else if s[0] == Escaper then (if |s| >= 2 then [s[1]] + UnescapeGlob(s[2..]) else [])
    else [s[0]] + UnescapeGlob(s[1..])
  }

  /** Glob text in which every rune that needs escaping is escaped, and only those are. */
  predicate IsEscapedGlob(t: string, separator: char)
    decreases |t|
  {
    t == [] ||
    (|t| >= 2 && t[0] == Escaper && NeedsGlobEscape(t[1], separator) && IsEscapedGlob(t[2..], separator)) ||
    (!NeedsGlobEscape(t[0], separator) && IsEscapedGlob(t[1..], separator))
  }

  lemma {:induction false} EscapeGlobAppend(a: string, b: string, separator: char)
    ensures EscapeGlob(a + b, separator) == EscapeGlob(a, separator) + EscapeGlob(b, separator)
    decreases |a|
  {
    if a == [] {
      assert a + b == b;
    } else {
      assert (a + b)[0] == a[0];
      assert (a + b)[1..] == a[1..] + b;
      EscapeGlobAppend(a[1..], b, separator);
    }
  }

  /** The escaped text is fully escaped, and unescaping it gives back the input. */
  lemma {:induction false} EscapeGlobRoundTrip(s: string, separator: char)
    ensures IsEscapedGlob(EscapeGlob(s, separator), separator)
    ensures UnescapeGlob(EscapeGlob(s, separator)) == s
    decreases |s|
  {
    if s != [] {
      EscapeGlobRoundTrip(s[1..], separator);
      var rest := EscapeGlob(s[1..], separator);
      if NeedsGlobEscape(s[0], separator) {
        assert EscapeGlob(s, separator) == [Escaper, s[0]] + rest;
        assert ([Escaper, s[0]] + rest)[2..] == rest;
      } else {
        assert EscapeGlob(s, separator) == [s[0]] + rest;
        assert ([s[0]] + rest)[1..] == rest;
      }
    }
  }

  /** The converse: every fully escaped text is the escaping of exactly one string. */
  lemma {:induction false} EscapedGlobIsEscape(t: string, separator: char)
    requires IsEscapedGlob(t, separator)
    ensures EscapeGlob(UnescapeGlob(t), separator) == t
    decreases |t|
  {
    if t != [] {
      if |t| >= 2 && t[0] == Escaper && NeedsGlobEscape(t[1], separator) && IsEscapedGlob(t[2..], separator) {
        EscapedGlobIsEscape(t[2..], separator);
        var u := UnescapeGlob(t[2..]);
        assert ([t[1]] + u)[1..] == u;
        assert t == [Escaper, t[1]] + t[2..];
      } else {
        assert t[0] != Escaper;
        EscapedGlobIsEscape(t[1..], separator);
        var u := UnescapeGlob(t[1..]);
        assert ([t[0]] + u)[1..] == u;
        assert t == [t[0]] + t[1..];
      }
    }
  }

  /** A string comes back unchanged exactly when it holds no rune that needs escaping. */
  lemma {:induction false} EscapeGlobUnchanged(s: string, separator: char)
    ensures EscapeGlob(s, separator) == s <==> forall i :: 0 <= i < |s| ==> !NeedsGlobEscape(s[i], separator)
    decreases |s|
  {
    if s != [] {
      EscapeGlobUnchanged(s[1..], separator);
      var rest := EscapeGlob(s[1..], separator);
      if NeedsGlobEscape(s[0], separator) {
        assert |EscapeGlob(s, separator)| == 2 + |rest| > |s|;
      } else {
        assert EscapeGlob(s, separator) == [s[0]] + rest;
        if rest == s[1..] {
          assert EscapeGlob(s, separator) == s;
        } else {
          assert EscapeGlob(s, separator)[1..] == rest;
        }
        assert (forall i :: 0 <= i < |s| ==> !NeedsGlobEscape(s[i], separator)) <==>
               (forall i :: 0 <= i < |s| - 1 ==> !NeedsGlobEscape(s[1..][i], separator));
      }
    }
  }

  /** The set of one-rune strings EscapeGlobComponent looks tokens up in. */
  function EscapeLookup(runesToEscape: seq<char>): set<string> {
    set r | r in runesToEscape :: [r]
  }

  /** Each token the scanner yields is escaped by EscapeGlobComponent exactly as EscapeGlob escapes it. */
  lemma {:induction false} EscapeGlobToken(part: string, separator: char)
    requires IsDelimiterToken(part, SetOf(RunesToEscape(separator))) || IsRunToken(part, SetOf(RunesToEscape(separator)))
    ensures EscapeGlob(part, separator) == (if part in EscapeLookup(RunesToEscape(separator)) then [Escaper] + part else part)
  {
    var seps := SetOf(RunesToEscape(separator));
    SetOfMembers(RunesToEscape(separator));
    if IsDelimiterToken(part, seps) {
      assert part == [part[0]];
      assert EscapeGlob(part, separator) == [Escaper, part[0]] + EscapeGlob([], separator);
    } else {
      EscapeGlobUnchanged(part, separator);
    }
  }

  /** One scanning step of EscapeGlobComponent: the token is a non-empty prefix of the data, and escaping it
      on its own extends the escaping of everything before it. */
  lemma EscapeScannedToken(consumed: string, data: string, advance: nat, part: string, separator: char)
    requires SplitStep(SetOf(RunesToEscape(separator)), data, true) == Split(advance, Some(part))
    ensures 0 < advance <= |data| && data == part + data[advance..]
    ensures EscapeGlob(consumed + part, separator) ==
            EscapeGlob(consumed, separator) + (if part in EscapeLookup(RunesToEscape(separator)) then [Escaper] + part else part)
  {
    assert part == data[..advance];
    SplitStepShape(SetOf(RunesToEscape(separator)), data, true);
    EscapeGlobToken(part, separator);
    EscapeGlobAppend(consumed, part, separator);
  }

  /** Builds the lookup of one-rune strings for the given runes. */
  method LookupSet(runesToEscape: seq<char>) returns (runesToEscapeMap: set<string>)
    ensures runesToEscapeMap == EscapeLookup(runesToEscape)
  {
    runesToEscapeMap := {};
    var k := 0;
    while k < |runesToEscape|
      invariant 0 <= k <= |runesToEscape|
      invariant runesToEscapeMap == EscapeLookup(runesToEscape[..k])
    {
      assert runesToEscape[..k + 1] == runesToEscape[..k] + [runesToEscape[k]];
      runesToEscapeMap := runesToEscapeMap + {[runesToEscape[k]]};
      k := k + 1;
    }
    assert runesToEscape[..k] == runesToEscape;
  }

  /** EscapeGlobComponent: escapes a component so that, used in a pattern, it matches itself literally. */
  method EscapeGlobComponent(component: string, options: Option<Options>) returns (escapedComponent: string)
    ensures escapedComponent == EscapeGlob(component, OrDefault(options).separator)
  {
    var opts := if options.None? then DefaultOptions else options.value;

    var runesToEscape := Expanders + [opts.separator] + [Escaper];
    assert runesToEscape == RunesToEscape(opts.separator);

    var runesToEscapeMap := LookupSet(runesToEscape);
    var data := component;
    var buf: string := [];
    ghost var consumed: string := [];
    while true
      invariant component == consumed + data
      invariant buf == EscapeGlob(consumed, opts.separator)
      invariant runesToEscapeMap == EscapeLookup(RunesToEscape(opts.separator))
      decreases |data|
    {
      var advance, token := SeparatorsScanner(runesToEscape, data, true);
      if token.None? {
        break;
      }
      var part := token.value;
      ghost var written := buf;
      if part in runesToEscapeMap {
        buf := buf + [Escaper];
        AppendTwo(written, [Escaper], part);
      }
      buf := buf + part;

      EscapeScannedToken(consumed, data, advance, part, opts.separator);
      AppendTwo(consumed, part, data[advance..]);
      consumed := consumed + part;
      data := data[advance..];
    }
    assert data == [];
    assert consumed == component;
    escapedComponent := buf;
  }
}
