/**
 * The glob sets of globset.go: an ordered sequence of compiled globs. A later glob that matches
 * overrides every earlier one, so a negated glob placed after a positive one vetoes the match.
 *
 * A set is a value that no operation changes, so it is a datatype over the sequence of globs; the
 * operations whose source loops are methods proved against the specification functions below.
 */
module GlobSet {
  import opened Wrappers
  import opened GlobOptions
  import opened Utils
  import opened Glob

  /** A glob set: the globs in the order they were given. */
  datatype GlobSet = GlobSet(globs: seq<Glob>)

  // ---------------------------------------------------------------------------
  // String
  // ---------------------------------------------------------------------------

  /** strings.Join: the elements of xs with sep between neighbours. */
  function Join(xs: seq<string>, sep: string): string
    decreases |xs|
  {
    if xs == [] then ""
    else if |xs| == 1 then xs[0]
    else Join(xs[..|xs| - 1], sep) + sep + xs[|xs| - 1]
  }

  /** Joining the empty list gives the empty string. */
  lemma JoinEmpty(sep: string)
    ensures Join([], sep) == ""
  {
  }

  /** Adding an element adds the separator and the element at the end, and nothing else. */
  lemma JoinSnoc(xs: seq<string>, x: string, sep: string)
    ensures Join(xs + [x], sep) == if xs == [] then x else Join(xs, sep) + sep + x
  {
    assert (xs + [x])[..|xs|] == xs;
  }

  /** The length of a join: the lengths of the elements plus one separator between each pair. */
  function TotalLength(xs: seq<string>): nat
    decreases |xs|
  {
    if xs == [] then 0 else TotalLength(xs[..|xs| - 1]) + |xs[|xs| - 1]|
  }

  lemma {:induction false} JoinLength(xs: seq<string>, sep: string)
    ensures |Join(xs, sep)| == TotalLength(xs) + (if xs == [] then 0 else (|xs| - 1) * |sep|)
    decreases |xs|
  {
    if |xs| > 1 {
      JoinLength(xs[..|xs| - 1], sep);
    }
  }

  /** The patterns of the globs, in order. */
  function Patterns(globs: seq<Glob>): (ps: seq<string>)
    ensures |ps| == |globs|
    ensures forall i :: 0 <= i < |globs| ==> ps[i] == globs[i].String()
    decreases |globs|
  {
    if globs == [] then [] else Patterns(globs[..|globs| - 1]) + [globs[|globs| - 1].String()]
  }

  /** String(): the patterns of the set's globs, joined by ", ". */
  method String(globSet: GlobSet) returns (r: string)
    ensures r == Join(Patterns(globSet.globs), ", ")
  {
    var strs: seq<string> := [];
    var i := 0;
    while i < |globSet.globs|
      invariant 0 <= i <= |globSet.globs|
      invariant strs == Patterns(globSet.globs[..i])
    {
      assert globSet.globs[..i + 1][..i] == globSet.globs[..i];
      strs := strs + [globSet.globs[i].String()];
      i := i + 1;
    }
    assert globSet.globs[..i] == globSet.globs;
    r := Join(strs, ", ");
  }

  // ---------------------------------------------------------------------------
  // MatchingGlob and Match
  // ---------------------------------------------------------------------------

  /** The glob that decides b: the last glob in the set that matches it, if any. */
  function LastMatching(globs: seq<Glob>, engine: RegexEngine, b: Bytes): Option<Glob>
    decreases |globs|
  {
    if globs == [] then None
    else if globs[|globs| - 1].Match(engine, b) then Some(globs[|globs| - 1])
    else LastMatching(globs[..|globs| - 1], engine, b)
  }

  /** The set matches b when the glob that decides it exists and is not negated. */
  predicate SetMatches(globs: seq<Glob>, engine: RegexEngine, b: Bytes) {
    var m := LastMatching(globs, engine, b);
    m.Some? && !m.value.IsNegative()
  }

  /** MatchingGlob(b): walks the set from the end and returns the first glob that matches b. */
  method MatchingGlob(globSet: GlobSet, engine: RegexEngine, b: Bytes) returns (g: Option<Glob>)
    ensures g == LastMatching(globSet.globs, engine, b)
  {
    var i := |globSet.globs| - 1;
    assert globSet.globs[..i + 1] == globSet.globs;
    while i >= 0
      invariant -1 <= i < |globSet.globs|
      invariant LastMatching(globSet.globs, engine, b) == LastMatching(globSet.globs[..i + 1], engine, b)
    {
      var glob := globSet.globs[i];
      if glob.Match(engine, b) {
        return Some(glob);
      }
      assert globSet.globs[..i + 1][..i] == globSet.globs[..i];
      i := i - 1;
    }
    return None;
  }

  /** Match(b): whether the glob that decides b exists and is not negated. */
  method Match(globSet: GlobSet, engine: RegexEngine, b: Bytes) returns (r: bool)
    ensures r == SetMatches(globSet.globs, engine, b)
  {
    var glob := MatchingGlob(globSet, engine, b);
    r := glob.Some? && !glob.value.IsNegative();
  }

  /** MatchString(s): Match on the UTF-8 encoding of s. */
  method MatchString(globSet: GlobSet, engine: RegexEngine, s: string) returns (r: bool)
    ensures r == SetMatches(globSet.globs, engine, Utf8Encode(s))
  {
    r := Match(globSet, engine, Utf8Encode(s));
  }

  /** The deciding glob is the one at the highest index that matches, and there is none only when no glob matches. */
  lemma {:induction false} LastMatchingIsHighest(globs: seq<Glob>, engine: RegexEngine, b: Bytes)
    ensures LastMatching(globs, engine, b).None? <==>
            forall i :: 0 <= i < |globs| ==> !globs[i].Match(engine, b)
    ensures LastMatching(globs, engine, b).Some? ==>
            exists i :: 0 <= i < |globs| && globs[i] == LastMatching(globs, engine, b).value &&
                        globs[i].Match(engine, b) &&
                        forall j :: i < j < |globs| ==> !globs[j].Match(engine, b)
    decreases |globs|
  {
    if globs != [] {
      var n := |globs| - 1;
      var init := globs[..n];
      if globs[n].Match(engine, b) {
        assert globs[n] == LastMatching(globs, engine, b).value;
      } else {
        LastMatchingIsHighest(init, engine, b);
        if LastMatching(init, engine, b).Some? {
          var i :| 0 <= i < |init| && init[i] == LastMatching(init, engine, b).value &&
                   init[i].Match(engine, b) &&
                   forall j :: i < j < |init| ==> !init[j].Match(engine, b);
          assert globs[i] == init[i];
          forall j | i < j < |globs|
            ensures !globs[j].Match(engine, b)
          {
            if j < n {
              assert globs[j] == init[j];
            }
          }
        } else {
          forall i | 0 <= i < |globs|
            ensures !globs[i].Match(engine, b)
          {
            if i < n {
              assert globs[i] == init[i];
            }
          }
        }
      }
    }
  }

  /** Match in terms of indices: some non-negated glob matches b and no later glob matches it. */
  lemma SetMatchesIff(globs: seq<Glob>, engine: RegexEngine, b: Bytes)
    ensures SetMatches(globs, engine, b) <==>
            exists i :: 0 <= i < |globs| && globs[i].Match(engine, b) && !globs[i].IsNegative() &&
                        forall j :: i < j < |globs| ==> !globs[j].Match(engine, b)
  {
    LastMatchingIsHighest(globs, engine, b);
    if exists i :: 0 <= i < |globs| && globs[i].Match(engine, b) && !globs[i].IsNegative() &&
                   forall j :: i < j < |globs| ==> !globs[j].Match(engine, b) {
      var i :| 0 <= i < |globs| && globs[i].Match(engine, b) && !globs[i].IsNegative() &&
               forall j :: i < j < |globs| ==> !globs[j].Match(engine, b);
      var k :| 0 <= k < |globs| && globs[k] == LastMatching(globs, engine, b).value &&
               globs[k].Match(engine, b) &&
               forall j :: k < j < |globs| ==> !globs[j].Match(engine, b);
      assert k == i;
    }
  }

  /** The empty set matches nothing. */
  lemma EmptySetMatchesNothing(engine: RegexEngine, b: Bytes)
    ensures !SetMatches([], engine, b)
  {
  }

  /** A glob added at the end that matches b decides b. */
  lemma LastMatchWins(globs: seq<Glob>, g: Glob, engine: RegexEngine, b: Bytes)
    requires g.Match(engine, b)
    ensures LastMatching(globs + [g], engine, b) == Some(g)
    ensures SetMatches(globs + [g], engine, b) <==> !g.IsNegative()
  {
  }

  /** A glob added at the end that does not match b leaves the verdict on b as it was. */
  lemma NonMatchingGlobIsNeutral(globs: seq<Glob>, g: Glob, engine: RegexEngine, b: Bytes)
    requires !g.Match(engine, b)
    ensures LastMatching(globs + [g], engine, b) == LastMatching(globs, engine, b)
    ensures SetMatches(globs + [g], engine, b) == SetMatches(globs, engine, b)
  {
    assert (globs + [g])[..|globs|] == globs;
  }

  /** A negated glob that matches b vetoes it unless a later glob matches b too. */
  lemma LaterNegationVetoes(globs: seq<Glob>, j: nat, engine: RegexEngine, b: Bytes)
    requires j < |globs| && globs[j].IsNegative() && globs[j].Match(engine, b)
    requires forall k :: j < k < |globs| ==> !globs[k].Match(engine, b)
    ensures LastMatching(globs, engine, b) == Some(globs[j])
    ensures !SetMatches(globs, engine, b)
  {
    LastMatchingIsHighest(globs, engine, b);
    var i :| 0 <= i < |globs| && globs[i] == LastMatching(globs, engine, b).value &&
             globs[i].Match(engine, b) &&
             forall k :: i < k < |globs| ==> !globs[k].Match(engine, b);
    assert i == j;
  }

  // ---------------------------------------------------------------------------
  // UTF-8, for MatchString's conversion of a string to bytes
  // ---------------------------------------------------------------------------

  /** The UTF-8 encoding of one rune: one to four bytes by the size of its code point. */
  function EncodeRune(c: char): (r: Bytes)
    ensures 1 <= |r| <= 4
  {
    var n := c as int;
    if n < 0x80 then [n as byte]
    else if n < 0x800 then [(0xC0 + n / 0x40) as byte, (0x80 + n % 0x40) as byte]
    else if n < 0x10000 then
      [(0xE0 + n / 0x1000) as byte, (0x80 + (n / 0x40) % 0x40) as byte, (0x80 + n % 0x40) as byte]
    else
      [(0xF0 + n / 0x40000) as byte, (0x80 + (n / 0x1000) % 0x40) as byte,
       (0x80 + (n / 0x40) % 0x40) as byte, (0x80 + n % 0x40) as byte]
  }

  /** Whether x is a continuation byte, 10xxxxxx. */
  predicate IsContinuation(x: byte) {
    0x80 <= x < 0xC0
  }

  /** Reads the code point out of the bytes of one encoded rune. */
  function DecodeRune(r: Bytes): int {
    if |r| == 1 then r[0] as int
    else if |r| == 2 then (r[0] as int - 0xC0) * 0x40 + (r[1] as int - 0x80)
    else if |r| == 3 then (r[0] as int - 0xE0) * 0x1000 + (r[1] as int - 0x80) * 0x40 + (r[2] as int - 0x80)
    else if |r| == 4 then
      (r[0] as int - 0xF0) * 0x40000 + (r[1] as int - 0x80) * 0x1000 + (r[2] as int - 0x80) * 0x40 + (r[3] as int - 0x80)
    else 0
  }

  /** The first byte says how long the encoding is, the others are continuation bytes, and decoding gives the rune back. */
  lemma EncodeRuneIsUtf8(c: char)
    ensures var r := EncodeRune(c);
            (|r| == 1 <==> r[0] < 0x80) &&
            (|r| == 2 <==> 0xC0 <= r[0] < 0xE0) &&
            (|r| == 3 <==> 0xE0 <= r[0] < 0xF0) &&
            (|r| == 4 <==> 0xF0 <= r[0] < 0xF8) &&
            (forall k :: 1 <= k < |r| ==> IsContinuation(r[k])) &&
            DecodeRune(r) == c as int
  {
    var n := c as int;
    if 0x80 <= n < 0x800 {
      SplitSixBits(n);
    } else if 0x800 <= n < 0x10000 {
      SplitSixBits(n);
      SplitSixBits(n / 0x40);
      assert n / 0x1000 == (n / 0x40) / 0x40;
    } else if 0x10000 <= n {
      SplitSixBits(n);
      SplitSixBits(n / 0x40);
      SplitSixBits(n / 0x1000);
      assert n / 0x1000 == (n / 0x40) / 0x40;
      assert n / 0x40000 == (n / 0x1000) / 0x40;
    }
  }

  /** A number is its low six bits plus 64 times the rest. */
  lemma SplitSixBits(n: nat)
    ensures n == (n / 0x40) * 0x40 + n % 0x40 && 0 <= n % 0x40 < 0x40
  {
  }

  /** The UTF-8 encoding of a string: the encodings of its runes, one after another. */
  function Utf8Encode(s: string): (r: Bytes)
    ensures |s| <= |r| <= 4 * |s|
    decreases |s|
  {
    if s == [] then [] else Utf8Encode(s[..|s| - 1]) + EncodeRune(s[|s| - 1])
  }

  /** Encoding distributes over concatenation. */
  lemma {:induction false} Utf8EncodeAppend(s: string, t: string)
    ensures Utf8Encode(s + t) == Utf8Encode(s) + Utf8Encode(t)
    decreases |t|
  {
    if t == [] {
      assert s + t == s;
    } else {
      var t' := t[..|t| - 1];
      assert (s + t)[..|s + t| - 1] == s + t';
      assert (s + t)[|s + t| - 1] == t[|t| - 1];
      Utf8EncodeAppend(s, t');
      AppendTwo(Utf8Encode(s), Utf8Encode(t'), EncodeRune(t[|t| - 1]));
    }
  }

  /** An ASCII string encodes to its own code points, byte for byte. */
  lemma {:induction false} Utf8EncodeAscii(s: string)
    requires forall i :: 0 <= i < |s| ==> s[i] < 0x80 as char
    ensures |Utf8Encode(s)| == |s|
    ensures forall i :: 0 <= i < |s| ==> Utf8Encode(s)[i] as int == s[i] as int
    decreases |s|
  {
    if s != [] {
      Utf8EncodeAscii(s[..|s| - 1]);
    }
  }

  // ---------------------------------------------------------------------------
  // NewGlobSet and CompileGlobSet
  // ---------------------------------------------------------------------------

  /** NewGlobSet: a set of the given globs, copied in order. */
  method NewGlobSet(globs: seq<Glob>) returns (globSet: GlobSet)
    ensures globSet.globs == globs
  {
    var a := new Glob[|globs|];
    var i := 0;
    while i < a.Length
      invariant 0 <= i <= a.Length
      invariant a[..i] == globs[..i]
    {
      a[i] := globs[i];
      i := i + 1;
    }
    assert a[..] == a[..i];
    globSet := GlobSet(a[..]);
  }

  /** The results gathered into one: all the values in order, or the first error. */
  function Collect<T, E>(rs: seq<Result<T, E>>): Result<seq<T>, E>
    decreases |rs|
  {
    if rs == [] then Success([])
    else
      match rs[0]
      case Failure(e) => Failure(e)
      case Success(v) =>
        match Collect(rs[1..])
        case Failure(e) => Failure(e)
        case Success(vs) => Success([v] + vs)
  }

  /** Collecting rs + qs after rs collected: the values of rs followed by those of qs, or the first error in qs. */
  lemma {:induction false} CollectSplit<T, E>(rs: seq<Result<T, E>>, qs: seq<Result<T, E>>)
    requires Collect(rs).Success?
    ensures Collect(rs + qs) ==
            match Collect(qs)
            case Failure(e) => Failure(e)
            case Success(vs) => Success(Collect(rs).value + vs)
    decreases |rs|
  {
    if rs == [] {
      assert rs + qs == qs;
      if Collect(qs).Success? {
        assert [] + Collect(qs).value == Collect(qs).value;
      }
    } else {
      assert (rs + qs)[0] == rs[0];
      assert (rs + qs)[1..] == rs[1..] + qs;
      var v := rs[0].value;
      CollectSplit(rs[1..], qs);
      var rest := Collect(rs[1..]).value;
      assert Collect(rs).value == [v] + rest;
      if Collect(qs).Success? {
        AppendTwo([v], rest, Collect(qs).value);
      }
    }
  }

  /** One step of a collecting loop: after the first i results collected to vs, result i either is the error or extends vs. */
  lemma CollectStep<T, E>(rs: seq<Result<T, E>>, i: nat, vs: seq<T>)
    requires i < |rs| && Collect(rs[..i]) == Success(vs)
    ensures rs[i].Failure? ==> Collect(rs) == Failure(rs[i].error)
    ensures rs[i].Success? ==> Collect(rs[..i + 1]) == Success(vs + [rs[i].value])
  {
    CollectSplit(rs[..i], rs[i..]);
    assert rs[..i] + rs[i..] == rs;
    assert rs[i..][0] == rs[i];
    CollectSplit(rs[..i], [rs[i]]);
    assert rs[..i + 1] == rs[..i] + [rs[i]];
    assert [rs[i]][1..] == [];
    if rs[i].Success? {
      assert [rs[i].value] + [] == [rs[i].value];
      assert Collect([rs[i]]) == Success([rs[i].value]);
    }
  }

  /** On success there is one value per result, in order; on failure the error is that of the first failing result. */
  lemma {:induction false} CollectMeaning<T, E>(rs: seq<Result<T, E>>)
    ensures Collect(rs).Success? ==>
            |Collect(rs).value| == |rs| && forall i :: 0 <= i < |rs| ==> rs[i] == Success(Collect(rs).value[i])
    ensures Collect(rs).Failure? ==>
            exists i :: 0 <= i < |rs| && rs[i] == Failure(Collect(rs).error) &&
                        forall j :: 0 <= j < i ==> rs[j].Success?
    decreases |rs|
  {
    if rs != [] && rs[0].Success? {
      var tail := rs[1..];
      CollectMeaning(tail);
      if Collect(tail).Success? {
        var vs := Collect(rs).value;
        forall i | 0 <= i < |rs|
          ensures rs[i] == Success(vs[i])
        {
          if i > 0 {
            assert rs[i] == tail[i - 1];
          }
        }
      } else {
        var i :| 0 <= i < |tail| && tail[i] == Failure(Collect(tail).error) &&
                 forall j :: 0 <= j < i ==> tail[j].Success?;
        assert rs[i + 1] == tail[i];
        forall j | 0 <= j < i + 1
          ensures rs[j].Success?
        {
          if j > 0 {
            assert rs[j] == tail[j - 1];
          }
        }
      }
    }
  }

  /** Each pattern compiled on its own with the same options. */
  function CompileEach(patterns: seq<string>, options: Option<Options>): (rs: seq<Result<Glob, CompileError>>)
    ensures |rs| == |patterns|
    decreases |patterns|
  {
    if patterns == [] then [] else [CompileSpec(patterns[0], options)] + CompileEach(patterns[1..], options)
  }

  lemma {:induction false} CompileEachAt(patterns: seq<string>, options: Option<Options>, i: nat)
    requires i < |patterns|
    ensures CompileEach(patterns, options)[i] == CompileSpec(patterns[i], options)
    decreases i
  {
    if i > 0 {
      CompileEachAt(patterns[1..], options, i - 1);
    }
  }

  /** What CompileGlobSet returns: every pattern compiled in order, or the error of the first one that fails. */
  function CompileAll(patterns: seq<string>, options: Option<Options>): Result<seq<Glob>, CompileError> {
    Collect(CompileEach(patterns, options))
  }

  /** CompileGlobSet: compiles every pattern with the same options; the first failure is the result. */
  method CompileGlobSet(patterns: seq<string>, options: Option<Options>) returns (r: Result<GlobSet, CompileError>)
    ensures r.Success? <==> CompileAll(patterns, options).Success?
    ensures r.Success? ==> r.value.globs == CompileAll(patterns, options).value
    ensures r.Failure? ==> r.error == CompileAll(patterns, options).error
  {
    var a := new Glob[|patterns|];
    var i := 0;
    assert patterns[..0] == [];
    while i < a.Length
      invariant 0 <= i <= a.Length
      invariant CompileAll(patterns[..i], options) == Success(a[..i])
    {
      var res := Compile(patterns[i], options);
      CompileAllStep(patterns, options, i, a[..i]);
      if res.Failure? {
        return Failure(res.error);
      }
      a[i] := res.value;
      assert a[..i + 1] == a[..i] + [res.value];
      i := i + 1;
    }
    assert patterns[..i] == patterns;
    assert a[..] == a[..i];
    r := Success(GlobSet(a[..]));
  }

  /** One step of CompileGlobSet: after the first i patterns compiled to gs, pattern i either fails the whole set or extends gs. */
  lemma CompileAllStep(patterns: seq<string>, options: Option<Options>, i: nat, gs: seq<Glob>)
    requires i < |patterns| && CompileAll(patterns[..i], options) == Success(gs)
    ensures CompileSpec(patterns[i], options).Failure? ==>
            CompileAll(patterns, options) == Failure(CompileSpec(patterns[i], options).error)
    ensures CompileSpec(patterns[i], options).Success? ==>
            CompileAll(patterns[..i + 1], options) == Success(gs + [CompileSpec(patterns[i], options).value])
  {
    var rs := CompileEach(patterns, options);
    CompileEachPrefix(patterns, options, i);
    CompileEachAt(patterns, options, i);
    CollectStep(rs, i, gs);
    CompileEachPrefix(patterns, options, i + 1);
  }

  /** Compiling a prefix of the patterns gives the same prefix of the results. */
  lemma {:induction false} CompileEachPrefix(patterns: seq<string>, options: Option<Options>, i: nat)
    requires i <= |patterns|
    ensures CompileEach(patterns[..i], options) == CompileEach(patterns, options)[..i]
    decreases i
  {
    if i > 0 {
      assert patterns[..i][1..] == patterns[1..][..i - 1];
      CompileEachPrefix(patterns[1..], options, i - 1);
    }
  }

  /** On success every pattern becomes one glob, in order; on failure some pattern failed with that error and all before it compiled. */
  lemma CompileAllMeaning(patterns: seq<string>, options: Option<Options>)
    ensures CompileAll(patterns, options).Success? ==>
            |CompileAll(patterns, options).value| == |patterns| &&
            forall i :: 0 <= i < |patterns| ==>
              CompileSpec(patterns[i], options) == Success(CompileAll(patterns, options).value[i])
    ensures CompileAll(patterns, options).Failure? ==>
            exists i :: 0 <= i < |patterns| &&
              CompileSpec(patterns[i], options) == Failure(CompileAll(patterns, options).error) &&
              forall j :: 0 <= j < i ==> CompileSpec(patterns[j], options).Success?
  {
    var rs := CompileEach(patterns, options);
    CollectMeaning(rs);
    forall i | 0 <= i < |patterns|
      ensures rs[i] == CompileSpec(patterns[i], options)
    {
      CompileEachAt(patterns, options, i);
    }
  }

  /** Since every pattern shares the options, a set fails to compile exactly when it is not empty and the separator is an expander. */
  lemma CompileAllFailsOnlyOnSeparator(patterns: seq<string>, options: Option<Options>)
    ensures CompileAll(patterns, options).Failure? <==>
            patterns != [] && options.Some? && options.value.separator in Expanders
    ensures CompileAll(patterns, options).Failure? ==>
            CompileAll(patterns, options).error == SeparatorNotAllowed(options.value.separator)
  {
    CompileAllMeaning(patterns, options);
  }
}
