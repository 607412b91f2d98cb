/**
 * The glob tokeniser of tokeniser.go: a pull-style scanner over a rune stream that yields
 * Literal, Star, GlobStar, Any and Separator tokens and swallows escapers.
 *
 * parse() is modelled twice: as the imperative method GlobTokeniser.Parse, which reads and
 * un-reads runes exactly as the Go loop does, and as the function NextToken, which says what
 * one call of parse() computes. Parse is proved to agree with NextToken; the properties of
 * the tokeniser are proved about NextToken and the token stream Tokens built from it.
 */
module Tokeniser {
  import opened Wrappers
  import opened GlobOptions
  import opened Utils

  /** Token classes (Go's `tc`). */
  datatype Tc = TcUnknown | TcLiteral | TcEscaper | TcStar | TcGlobStar | TcAny | TcSeparator

  /** The errors a rune reader can report: io.EOF, or any other read failure. */
  datatype ReadError = EOF | ReadFailure

  /** The class parse() gives a rune that is not escaped, following the order of its switch. */
  function RuneClass(r: char, separator: char): Tc {
    if r == Escaper then TcEscaper
    else if r == '*' then TcStar
    else if r == '?' then TcAny
    else if r == separator then TcSeparator
    else TcLiteral
  }

  /** A rune is of class Literal exactly when EscapeGlobComponent would leave it alone. */
  lemma RuneClassLiteral(r: char, separator: char)
    ensures RuneClass(r, separator) == TcLiteral <==> !NeedsGlobEscape(r, separator)
  {
  }

  /** The error a reader returns once its runes are used up. */
  function EndOfInput(failsAtEnd: bool): ReadError {
    if failsAtEnd then ReadFailure else EOF
  }

  /**
   * An io.RuneScanner over a fixed sequence of runes. When failsAtEnd holds, reading past the
   * last rune fails with a non-EOF error (a reader whose underlying source breaks) instead of EOF.
   */
  class RuneReader {
    const runes: string
    const failsAtEnd: bool
    var pos: nat

    ghost predicate Valid()
      reads this
    {
      pos <= |runes|
    }

    constructor (runes: string, failsAtEnd: bool)
      ensures Valid()
      ensures this.runes == runes && this.failsAtEnd == failsAtEnd && pos == 0
    {
      this.runes := runes;
      this.failsAtEnd := failsAtEnd;
      pos := 0;
    }

    /** Reads the next rune, or reports the end of the input. */
    method ReadRune() returns (r: char, err: Option<ReadError>)
      requires Valid()
      modifies this`pos
      ensures Valid()
      ensures old(pos) < |runes| ==> err.None? && r == runes[old(pos)] && pos == old(pos) + 1
      ensures old(pos) == |runes| ==> err == Some(EndOfInput(failsAtEnd)) && pos == old(pos)
    {
      if pos == |runes| {
        return '\0', Some(EndOfInput(failsAtEnd));
      }
      r := runes[pos];
      err := None;
      pos := pos + 1;
    }

    /** Steps back over the rune just read. */
    method UnreadRune()
      requires Valid() && 0 < pos
      modifies this`pos
      ensures Valid() && pos == old(pos) - 1
    {
      pos := pos - 1;
    }
  }

  /**
   * The end of the run of Literal-class runes that starts at q: every rune in between is of
   * class Literal, and the rune at the end (if any) is not.
   */
  function LiteralEnd(runes: string, separator: char, q: nat): (e: nat)
    requires q <= |runes|
    ensures q <= e <= |runes|
    ensures forall j :: q <= j < e ==> RuneClass(runes[j], separator) == TcLiteral
    ensures e == |runes| || RuneClass(runes[e], separator) != TcLiteral
    decreases |runes| - q
  {
    if q == |runes| || RuneClass(runes[q], separator) != TcLiteral then q
    else LiteralEnd(runes, separator, q + 1)
  }

  /** What one call of parse() leaves behind: the token, its type, the reader position and the error returned. */
  datatype Step = Step(token: string, tokenType: Tc, next: nat, err: Option<ReadError>)

  /**
   * One pass of parse()'s read loop and the checks after it, from position p, without the
   * recursion on an escaper. `escaped` says whether the previous token was an escaper.
   */
  function Consume(runes: string, failsAtEnd: bool, separator: char, p: nat, escaped: bool): (s: Step)
    requires p <= |runes|
    ensures p <= s.next <= |runes|
    ensures s.err.Some? ==> s.token == [] && s.tokenType == TcUnknown && s.next == |runes|
                            && s.err == Some(EndOfInput(failsAtEnd))
    ensures s.err.None? ==> p < s.next && s.token == runes[p..s.next] && s.tokenType != TcUnknown
    ensures s.err.None? && s.tokenType == TcEscaper ==> !escaped && s.next == p + 1
  {
    if p == |runes| then Step([], TcUnknown, p, Some(EndOfInput(failsAtEnd)))
    else
      var kind := if escaped then TcLiteral else RuneClass(runes[p], separator);
      if kind == TcLiteral then
        var e := LiteralEnd(runes, separator, p + 1);
        if e == |runes| && failsAtEnd then Step([], TcUnknown, e, Some(ReadFailure))
        else Step(runes[p..e], TcLiteral, e, None)
      else if kind == TcStar then
        if p + 1 == |runes| && failsAtEnd then Step([], TcUnknown, p + 1, Some(ReadFailure))
        else if p + 1 < |runes| && runes[p + 1] == '*' then Step("**", TcGlobStar, p + 2, None)
        else Step("*", TcStar, p + 1, None)
      else Step([runes[p]], kind, p + 1, None)
  }

  /**
   * One call of parse() from position p: an escaper is consumed and parse() starts over with the
   * next rune escaped. A yielded token is never empty and never of type Unknown or Escaper; on an
   * error the token and type are cleared and the reader is at the end.
   */
  function NextToken(runes: string, failsAtEnd: bool, separator: char, p: nat, escaped: bool): (s: Step)
    requires p <= |runes|
    ensures p <= s.next <= |runes|
    ensures s.err.Some? ==> s.token == [] && s.tokenType == TcUnknown && s.next == |runes|
                            && s.err == Some(EndOfInput(failsAtEnd))
    ensures s.err.None? ==> p < s.next && s.token != [] && s.tokenType != TcUnknown && s.tokenType != TcEscaper
    decreases |runes| - p
  {
    var c := Consume(runes, failsAtEnd, separator, p, escaped);
    if c.err.None? && c.tokenType == TcEscaper then NextToken(runes, failsAtEnd, separator, c.next, true)
    else c
  }

  /** The checks parse() makes after its read loop: an EOF after a token is dropped, and an error clears the token. */
  function Finish(tokenBuf: string, tt: Tc, pos: nat, readErr: Option<ReadError>): Step {
    var e := if readErr == Some(EOF) && tt != TcUnknown then None else readErr;
    if e.Some? then Step([], TcUnknown, pos, e) else Step(tokenBuf, tt, pos, None)
  }

  /** A token as the Token() accessor returns it. */
  datatype Token = Token(text: string, kind: Tc)

  /** The tokens successive Scan() calls yield from position p of a reader that ends with EOF. */
  function Tokens(runes: string, separator: char, p: nat): seq<Token>
    requires p <= |runes|
    decreases |runes| - p
  {
    var s := NextToken(runes, false, separator, p, false);
    if s.err.Some? then [] else [Token(s.token, s.tokenType)] + Tokens(runes, separator, s.next)
  }

  function Texts(ts: seq<Token>): seq<string> {
    if ts == [] then [] else [ts[0].text] + Texts(ts[1..])
  }

  /** globTokeniser: the reader, the options, the current token and type, and the stored error. */
  class GlobTokeniser {
    const input: RuneReader
    const globOptions: Options
    var token: string
    var tokenType: Tc
    var err: Option<ReadError>

    /** Between Scan() calls no escaper is held as the current token, and EOF is never stored. */
    ghost predicate Valid()
      reads this, input
    {
      input.Valid() && tokenType != TcEscaper && (tokenType == TcUnknown <==> token == []) && err != Some(EOF)
    }

    /** newGlobTokeniser. */
    constructor (input: RuneReader, globOptions: Options)
      requires input.Valid()
      ensures Valid()
      ensures this.input == input && this.globOptions == globOptions
      ensures token == [] && tokenType == TcUnknown && err == None
    {
      this.input := input;
      this.globOptions := globOptions;
      token := [];
      tokenType := TcUnknown;
      err := None;
    }

    /**
     * The `consumer` loop of parse(): reads runes into the token buffer until the token is complete,
     * un-reading the first rune that belongs to the next token. Returns the buffer, the token type
     * and the read error that ended the loop, if any.
     */
    method Consumer(escaped: bool) returns (tokenBuf: string, tt: Tc, readErr: Option<ReadError>)
      requires input.Valid()
      modifies input
      ensures input.Valid()
      ensures Finish(tokenBuf, tt, input.pos, readErr) == Consume(input.runes, input.failsAtEnd, globOptions.separator, old(input.pos), escaped)
    {
      tokenBuf := [];
      tt := TcUnknown;
      var escaped := escaped;

      ghost var runes, separator := input.runes, globOptions.separator;
      ghost var p0, escaped0 := input.pos, escaped;
      readErr := None;
      while true
        invariant input.Valid() && p0 <= input.pos
        invariant tt == TcUnknown || tt == TcLiteral || tt == TcStar
        invariant tt == TcUnknown ==> input.pos == p0 && tokenBuf == [] && escaped == escaped0
        invariant tt != TcUnknown ==> !escaped && p0 < input.pos && tokenBuf == runes[p0..input.pos]
        invariant tt == TcLiteral ==> (escaped0 || RuneClass(runes[p0], separator) == TcLiteral)
                                      && input.pos <= LiteralEnd(runes, separator, p0 + 1)
        invariant tt == TcStar ==> !escaped0 && runes[p0] == '*' && input.pos == p0 + 1
        invariant readErr == None
        decreases |runes| - input.pos
      {
        var r, rerr := input.ReadRune();
        if rerr.Some? {
          readErr := rerr;
          break;
        }

        var runeType := TcUnknown;
        if r == Escaper {
          runeType := TcEscaper;
        } else if r == '*' {
          if tt == TcStar {
            runeType := TcGlobStar;
            tt := TcGlobStar;
          } else {
            runeType := TcStar;
          }
        } else if r == '?' {
          runeType := TcAny;
        } else if r == globOptions.separator {
          runeType := TcSeparator;
        } else {
          runeType := TcLiteral;
        }

        if escaped {
          // The rune after an escaper is always a literal
          runeType := TcLiteral;
          escaped := false;
        }

        if tt != TcUnknown && tt != runeType {
          // The rune belongs to the next token: push it back
          input.UnreadRune();
          break;
        }

        tt := runeType;
        tokenBuf := tokenBuf + [r];

        if tt == TcEscaper || tt == TcGlobStar || tt == TcAny || tt == TcSeparator {
          break;
        }
      }
    }

    /** parse(): advances by a single token. */
    method Parse() returns (parseErr: Option<ReadError>)
      requires input.Valid()
      modifies this, input
      ensures input.Valid()
      ensures var s := NextToken(input.runes, input.failsAtEnd, globOptions.separator, old(input.pos), old(tokenType) == TcEscaper);
              input.pos == s.next && token == s.token && tokenType == s.tokenType && parseErr == s.err
      ensures err == old(err)
      decreases |input.runes| - input.pos
    {
      var lastTokenType := tokenType;
      var tokenBuf, tt, readErr := Consumer(lastTokenType == TcEscaper);

      if readErr == Some(EOF) && tt != TcUnknown {
        // A token was read: the EOF is reported by the next call
        readErr := None;
      }

      if readErr.Some? {
        token := [];
        tokenType := TcUnknown;
        return readErr;
      }

      token := tokenBuf;
      tokenType := tt;

      parseErr := None;
      if tt == TcEscaper {
        // Escapers are never yielded: parse again, with the next rune escaped
        parseErr := Parse();
      }
    }

    /** Scan(): advances to the next token; false at the end of the input or on a read error. */
    method Scan() returns (ok: bool)
      requires Valid()
      modifies this, input
      ensures Valid()
      ensures var s := NextToken(input.runes, input.failsAtEnd, globOptions.separator, old(input.pos), false);
              input.pos == s.next && token == s.token && tokenType == s.tokenType
              && ok == s.err.None? && err == (if s.err == Some(EOF) then None else s.err)
    {
      var e := Parse();
      if e == Some(EOF) {
        err := None;
      } else {
        err := e;
      }
      ok := e == None;
    }

    /** Err(): the error of the last Scan(), never EOF. */
    function Err(): (e: Option<ReadError>)
      reads this, input
      ensures Valid() ==> e != Some(EOF)
    {
      err
    }

    /** Token(): the current token and its type (empty and Unknown after the end or an error). */
    function Token(): (r: (string, Tc))
      reads this, input
      ensures Valid() ==> r.1 != TcEscaper && (r.1 == TcUnknown <==> r.0 == [])
    {
      (token, tokenType)
    }
  }

  /* ---------- Properties of a single parse() ---------- */

  /** The shape of what one pass of the read loop yields. */
  lemma ConsumeShape(runes: string, failsAtEnd: bool, separator: char, p: nat, escaped: bool)
    requires p <= |runes|
    ensures var s := Consume(runes, failsAtEnd, separator, p, escaped);
            s.err.None? ==>
              (s.tokenType == TcLiteral <==> escaped || RuneClass(runes[p], separator) == TcLiteral) &&
              (s.tokenType != TcLiteral ==> s.tokenType == RuneClass(runes[p], separator) || s.tokenType == TcGlobStar) &&
              (s.tokenType == TcGlobStar ==> s.token == "**") &&
              (s.tokenType == TcStar ==> s.token == "*" && (s.next == |runes| || runes[s.next] != '*')) &&
              (s.tokenType == TcAny ==> s.token == "?") &&
              (s.tokenType == TcSeparator ==> s.token == [separator]) &&
              (s.tokenType == TcEscaper ==> s.token == [Escaper]) &&
              (s.tokenType == TcLiteral ==>
                 (forall i :: 1 <= i < |s.token| ==> RuneClass(s.token[i], separator) == TcLiteral) &&
                 (s.next == |runes| || RuneClass(runes[s.next], separator) != TcLiteral))
  {
    var s := Consume(runes, failsAtEnd, separator, p, escaped);
    if s.err.None? && s.tokenType == TcLiteral {
      var e := LiteralEnd(runes, separator, p + 1);
      assert s.next == e && s.token == runes[p..e];
      assert forall i :: 1 <= i < |s.token| ==> s.token[i] == runes[p + i];
    }
  }

  /**
   * The shape of the token one call of parse() yields: it is the runes it read, less a leading
   * escaper; GlobStar, Star, Any and Separator tokens are exactly `**`, `*`, `?` and the separator
   * and are never escaped; a Literal holds no unescaped expander, separator or escaper after its
   * first rune and stops right before the first rune of another class, which is left unread.
   */
  lemma NextTokenShape(runes: string, failsAtEnd: bool, separator: char, p: nat, escaped: bool)
    requires p <= |runes|
    ensures var s := NextToken(runes, failsAtEnd, separator, p, escaped);
            var start := if !escaped && p < |runes| && runes[p] == Escaper then p + 1 else p;
            s.err.None? ==>
              start < s.next && s.token == runes[start..s.next] &&
              (s.tokenType != TcLiteral ==> start == p && !escaped) &&
              (s.tokenType == TcGlobStar ==> s.token == "**") &&
              (s.tokenType == TcStar ==> s.token == "*" && (s.next == |runes| || runes[s.next] != '*')) &&
              (s.tokenType == TcAny ==> s.token == "?") &&
              (s.tokenType == TcSeparator ==> s.token == [separator] && separator != Escaper) &&
              (s.tokenType == TcLiteral ==>
                 (forall i :: 1 <= i < |s.token| ==> RuneClass(s.token[i], separator) == TcLiteral) &&
                 (s.next == |runes| || RuneClass(runes[s.next], separator) != TcLiteral)) &&
              (forall i :: 1 <= i < |s.token| ==> s.token[i] != Escaper) &&
              (!escaped && start == p ==> s.token[0] != Escaper)
    ensures var s := NextToken(runes, failsAtEnd, separator, p, escaped);
            s.err.Some? && !failsAtEnd ==> p == |runes| || (p + 1 == |runes| && !escaped && runes[p] == Escaper)
  {
    var c := Consume(runes, failsAtEnd, separator, p, escaped);
    ConsumeShape(runes, failsAtEnd, separator, p, escaped);
    if c.err.None? && c.tokenType == TcEscaper {
      ConsumeShape(runes, failsAtEnd, separator, p + 1, true);
    }
  }

  /** The rune right after an escaper starts a Literal token, whatever its own class. */
  lemma EscapedRuneIsLiteral(runes: string, failsAtEnd: bool, separator: char, p: nat)
    requires p + 1 < |runes| && runes[p] == Escaper
    ensures var s := NextToken(runes, failsAtEnd, separator, p, false);
            (!failsAtEnd ==> s.err.None?) &&
            (s.err.None? ==> s.tokenType == TcLiteral && s.token[0] == runes[p + 1] && s.next - |s.token| == p + 1)
  {
    NextTokenShape(runes, failsAtEnd, separator, p, false);
    ConsumeShape(runes, failsAtEnd, separator, p + 1, true);
  }

  /** An escaper at the very end yields no token: parse() reports the end of the input. */
  lemma TrailingEscaperYieldsNothing(runes: string, failsAtEnd: bool, separator: char)
    requires runes != [] && runes[|runes| - 1] == Escaper
    ensures NextToken(runes, failsAtEnd, separator, |runes| - 1, false) == Step([], TcUnknown, |runes|, Some(EndOfInput(failsAtEnd)))
  {
  }

  /** Once parse() has failed, it fails the same way on every later call. */
  lemma EndOfInputIsSticky(runes: string, failsAtEnd: bool, separator: char, p: nat)
    requires p <= |runes|
    requires NextToken(runes, failsAtEnd, separator, p, false).err.Some?
    ensures var s := NextToken(runes, failsAtEnd, separator, p, false);
            NextToken(runes, failsAtEnd, separator, s.next, false) == s
  {
  }

  /* ---------- Properties of the token stream ---------- */

  function Repeat(t: Token, k: nat): seq<Token> {
    if k == 0 then [] else [t] + Repeat(t, k - 1)
  }

  /** Two stars in a row make one GlobStar token; the reader stops right after them. */
  lemma GlobStarIsStandalone(runes: string, failsAtEnd: bool, separator: char, p: nat)
    requires p + 1 < |runes| && runes[p] == '*' && runes[p + 1] == '*'
    ensures NextToken(runes, failsAtEnd, separator, p, false) == Step("**", TcGlobStar, p + 2, None)
  {
  }

  /** A star not followed by another is a Star token on its own. */
  lemma LoneStar(runes: string, separator: char, p: nat)
    requires p < |runes| && runes[p] == '*' && (p + 1 == |runes| || runes[p + 1] != '*')
    ensures NextToken(runes, false, separator, p, false) == Step("*", TcStar, p + 1, None)
  {
  }

  lemma GlobStarTokens(runes: string, separator: char, p: nat)
    requires p + 1 < |runes| && runes[p] == '*' && runes[p + 1] == '*'
    ensures Tokens(runes, separator, p) == [Token("**", TcGlobStar)] + Tokens(runes, separator, p + 2)
  {
    GlobStarIsStandalone(runes, false, separator, p);
  }

  lemma LoneStarTokens(runes: string, separator: char, p: nat)
    requires p < |runes| && runes[p] == '*' && (p + 1 == |runes| || runes[p + 1] != '*')
    ensures Tokens(runes, separator, p) == [Token("*", TcStar)] + Tokens(runes, separator, p + 1)
  {
    LoneStar(runes, separator, p);
  }

  lemma RepeatCons(t: Token, k: nat, rest: seq<Token>)
    ensures [t] + (Repeat(t, k) + rest) == Repeat(t, k + 1) + rest
  {
  }

  /** The end of a star run: nothing, or one lone star. */
  lemma StarRunEnd(runes: string, separator: char, p: nat, odd: bool)
    requires var n := if odd then 1 else 0;
             p + n <= |runes| && (odd ==> runes[p] == '*') && (p + n == |runes| || runes[p + n] != '*')
    ensures var n := if odd then 1 else 0;
            Tokens(runes, separator, p) ==
            Repeat(Token("**", TcGlobStar), 0) + (if odd then [Token("*", TcStar)] else []) + Tokens(runes, separator, p + n)
  {
    if odd {
      LoneStarTokens(runes, separator, p);
    }
  }

  /** The n runes from position p are all stars. */
  predicate StarsAt(runes: string, p: nat, n: nat)
    requires p + n <= |runes|
    decreases n
  {
    n == 0 || (runes[p] == '*' && StarsAt(runes, p + 1, n - 1))
  }

  /** One more pair of stars in front of a run adds one GlobStar token in front of its tokens. */
  lemma StarPairStep(runes: string, separator: char, p: nat, k: nat, tail: seq<Token>, after: seq<Token>)
    requires p + 1 < |runes| && runes[p] == '*' && runes[p + 1] == '*'
    requires Tokens(runes, separator, p + 2) == Repeat(Token("**", TcGlobStar), k) + tail + after
    ensures Tokens(runes, separator, p) == Repeat(Token("**", TcGlobStar), k + 1) + tail + after
  {
    GlobStarTokens(runes, separator, p);
    RepeatCons(Token("**", TcGlobStar), k, tail + after);
  }

  /**
   * A run of 2 * pairs unescaped stars, plus one more when odd holds, yields `pairs` GlobStar
   * tokens followed by one Star token when odd holds; a third star never extends a GlobStar.
   */
  lemma {:induction false} StarRunTokens(runes: string, separator: char, p: nat, pairs: nat, odd: bool)
    requires var n := 2 * pairs + (if odd then 1 else 0);
             p + n <= |runes| && StarsAt(runes, p, n) && (p + n == |runes| || runes[p + n] != '*')
    ensures var n := 2 * pairs + (if odd then 1 else 0);
            Tokens(runes, separator, p) ==
            Repeat(Token("**", TcGlobStar), pairs) + (if odd then [Token("*", TcStar)] else []) + Tokens(runes, separator, p + n)
    decreases pairs
  {
    var g := Token("**", TcGlobStar);
    var n := 2 * pairs + (if odd then 1 else 0);
    var tail: seq<Token> := if odd then [Token("*", TcStar)] else [];
    var after := Tokens(runes, separator, p + n);
    if pairs == 0 {
      StarRunEnd(runes, separator, p, odd);
    } else {
      var m := 2 * (pairs - 1) + (if odd then 1 else 0);
      assert p + 2 + m == p + n;
      StarRunTokens(runes, separator, p + 2, pairs - 1, odd);
      StarPairStep(runes, separator, p, pairs - 1, tail, after);
    }
  }

  /** Removing escapers from a text without any leaves it as it is, in front of whatever follows. */
  lemma {:induction false} UnescapePlain(t: string, u: string)
    requires forall i :: 0 <= i < |t| ==> t[i] != Escaper
    ensures UnescapeGlob(t + u) == t + UnescapeGlob(u)
    decreases |t|
  {
    if t != [] {
      assert (t + u)[0] == t[0];
      assert (t + u)[1..] == t[1..] + u;
      assert UnescapeGlob(t + u) == [t[0]] + UnescapeGlob(t[1..] + u);
      UnescapePlain(t[1..], u);
      assert t == [t[0]] + t[1..];
    } else {
      assert t + u == u;
    }
  }

  /** A token read without an escaper in front of it is a plain prefix of the remaining input. */
  lemma UnescapeUnescapedToken(runes: string, t: string, p: nat, next: nat)
    requires p < next <= |runes| && t == runes[p..next]
    requires forall i :: 0 <= i < |t| ==> t[i] != Escaper
    ensures UnescapeGlob(runes[p..]) == t + UnescapeGlob(runes[next..])
  {
    assert runes[p..] == t + runes[next..];
    UnescapePlain(t, runes[next..]);
  }

  /** A token read after an escaper is the escaped rune followed by a plain run. */
  lemma UnescapeEscapedToken(runes: string, t: string, p: nat, next: nat)
    requires p + 1 < next <= |runes| && runes[p] == Escaper && t == runes[p + 1..next]
    requires forall i :: 1 <= i < |t| ==> t[i] != Escaper
    ensures UnescapeGlob(runes[p..]) == t + UnescapeGlob(runes[next..])
  {
    var u := runes[next..];
    assert runes[p..] == [Escaper, t[0]] + (t[1..] + u);
    assert UnescapeGlob(runes[p..]) == [t[0]] + UnescapeGlob(t[1..] + u);
    UnescapePlain(t[1..], u);
    assert t == [t[0]] + t[1..];
  }

  /** One token accounts for a prefix of the unescaped remaining input. */
  lemma NextTokenUnescape(runes: string, separator: char, p: nat)
    requires p <= |runes|
    ensures var s := NextToken(runes, false, separator, p, false);
            if s.err.Some? then UnescapeGlob(runes[p..]) == []
            else UnescapeGlob(runes[p..]) == s.token + UnescapeGlob(runes[s.next..])
  {
    var s := NextToken(runes, false, separator, p, false);
    NextTokenShape(runes, false, separator, p, false);
    if s.err.None? {
      if p < |runes| && runes[p] == Escaper {
        UnescapeEscapedToken(runes, s.token, p, s.next);
      } else {
        UnescapeUnescapedToken(runes, s.token, p, s.next);
      }
    } else if p < |runes| {
      assert runes[p..] == [Escaper];
    }
  }

  lemma ConcatTextsCons(t: Token, ts: seq<Token>)
    ensures Concat(Texts([t] + ts)) == t.text + Concat(Texts(ts))
  {
    assert ([t] + ts)[1..] == ts;
    assert ([t.text] + Texts(ts))[1..] == Texts(ts);
  }

  /** Concatenating every token Scan() yields gives the input with each escaping escaper removed. */
  lemma {:induction false} TokensSpellUnescapedInput(runes: string, separator: char, p: nat)
    requires p <= |runes|
    ensures Concat(Texts(Tokens(runes, separator, p))) == UnescapeGlob(runes[p..])
    decreases |runes| - p
  {
    var s := NextToken(runes, false, separator, p, false);
    NextTokenUnescape(runes, separator, p);
    if s.err.None? {
      TokensSpellUnescapedInput(runes, separator, s.next);
      ConcatTextsCons(Token(s.token, s.tokenType), Tokens(runes, separator, s.next));
    }
  }

  /** In a fully escaped text, a Literal run that starts at an escaped position ends at one. */
  lemma {:induction false} LiteralEndEscaped(t: string, separator: char, q: nat)
    requires q <= |t| && IsEscapedGlob(t[q..], separator)
    ensures var e := LiteralEnd(t, separator, q);
            IsEscapedGlob(t[e..], separator) && (e < |t| ==> t[e] == Escaper)
    decreases |t| - q
  {
    if q < |t| {
      RuneClassLiteral(t[q], separator);
      if RuneClass(t[q], separator) == TcLiteral {
        assert t[q..][1..] == t[q + 1..];
        LiteralEndEscaped(t, separator, q + 1);
      } else {
        assert t[q..][0] == t[q];
      }
    }
  }

  /** Every token of a fully escaped text is a Literal. */
  lemma {:induction false} EscapedTextTokensAreLiterals(t: string, separator: char, p: nat)
    requires p <= |t| && IsEscapedGlob(t[p..], separator)
    ensures forall i :: 0 <= i < |Tokens(t, separator, p)| ==> Tokens(t, separator, p)[i].kind == TcLiteral
    decreases |t| - p
  {
    if p < |t| {
      var s := NextToken(t, false, separator, p, false);
      assert t[p..][0] == t[p];
      RuneClassLiteral(t[p], separator);
      var q;
      if t[p] == Escaper {
        assert t[p..][2..] == t[p + 2..];
        q := p + 2;
        assert Consume(t, false, separator, p, false).tokenType == TcEscaper;
        assert s == NextToken(t, false, separator, p + 1, true);
        assert s == Consume(t, false, separator, p + 1, true);
      } else {
        assert t[p..][1..] == t[p + 1..];
        q := p + 1;
      }
      LiteralEndEscaped(t, separator, q);
      assert s.tokenType == TcLiteral && s.next == LiteralEnd(t, separator, q);
      EscapedTextTokensAreLiterals(t, separator, s.next);
    }
  }

  /**
   * Tokenising EscapeGlobComponent(s) with the same separator yields only Literal tokens, and
   * together they spell s: an escaped component matches itself literally.
   */
  lemma EscapedComponentTokenisesToLiterals(s: string, separator: char)
    ensures var ts := Tokens(EscapeGlob(s, separator), separator, 0);
            (forall i :: 0 <= i < |ts| ==> ts[i].kind == TcLiteral) && Concat(Texts(ts)) == s
  {
    var t := EscapeGlob(s, separator);
    EscapeGlobRoundTrip(s, separator);
    assert t[0..] == t;
    EscapedTextTokensAreLiterals(t, separator, 0);
    TokensSpellUnescapedInput(t, separator, 0);
  }
}
