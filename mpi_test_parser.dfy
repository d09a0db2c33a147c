/** The parser for pytest's console output used by pytest-easyMPI: building
    the node id that makes pytest run a single test, naming that test's
    temporary output file, stripping ANSI colour codes, detecting a failure,
    and cutting the traceback and the one-line failure reason out of the
    output text. Python exceptions become the error tags of `Result`.
 */
module MpiTestParser {
  import opened PyStr

  /** Why an extraction failed. `NoTraceback` is the ValueError that
      get_traceback raises with its own message; `LookupFailed` is a raw
      ValueError from `str.index`/`str.rindex`; `NoMatch` is the
      AttributeError of calling `.groups()` on a failed `re.search`. */
  datatype ParseError = NoTraceback | LookupFailed | NoMatch

  datatype Result<T> = Ok(value: T) | Err(error: ParseError)

  /** Written at the end of a worker's output file so that a reader can tell
      that the whole test suite ran through. */
  const EndOfTest := "%<<<<END_OF_TEST>>>>%"

  /* ---------------------------------------------------------------------
     Colour codes: the pattern \x1B\[\d+(;\d+){0,2}m and re.sub
     --------------------------------------------------------------------- */

  const Esc: char := '\U{1B}'

  predicate IsDigit(c: char)
  {
    '0' <= c <= '9'
  }

  /** `p` is the parameter part of a colour code the pattern removes: one to
      three non-empty runs of digits separated by single ';'. */
  predicate IsParamList(p: string)
  {
    |p| > 0 && IsDigit(p[0]) && IsDigit(p[|p| - 1]) &&
    (forall i :: 0 <= i < |p| ==> IsDigit(p[i]) || p[i] == ';') &&
    (forall i :: 0 <= i < |p| - 1 && p[i] == ';' ==> p[i + 1] != ';') &&
    CountChar(p, ';') <= 2
  }

  /** `t` is one whole colour code: ESC '[' parameters 'm'. */
  predicate IsColourCode(t: string)
  {
    |t| >= 4 && t[0] == Esc && t[1] == '[' && t[|t| - 1] == 'm' && IsParamList(t[2..|t| - 1])
  }

  /** No colour code begins at the start of `s`. */
  ghost predicate NoCodeAtStart(s: string)
  {
    forall n :: 0 <= n <= |s| ==> !IsColourCode(s[..n])
  }

  /** The first index at or after `i` holding neither a digit nor ';'. */
  function ParamRunEnd(u: string, i: nat): (e: nat)
    requires i <= |u|
    ensures i <= e <= |u|
    ensures forall k :: i <= k < e ==> IsDigit(u[k]) || u[k] == ';'
    ensures e < |u| ==> !IsDigit(u[e]) && u[e] != ';'
    decreases |u| - i
  {
    if i < |u| && (IsDigit(u[i]) || u[i] == ';') then ParamRunEnd(u, i + 1) else i
  }

  /** The length of the colour code that begins `u`, if one does. */
  function ColourCodeAt(u: string): (r: Option<nat>)
    ensures r.Some? ==> r.value <= |u| && IsColourCode(u[..r.value])
  {
    if |u| < 2 || u[0] != Esc || u[1] != '[' then None
    else
      var e := ParamRunEnd(u, 2);
      if e < |u| && u[e] == 'm' && IsParamList(u[2..e]) then
        assert u[..e + 1][2..e] == u[2..e];
        Some(e + 1)
      else None
  }

  /** The match is unique: every digit run of the pattern has to be maximal,
      so a colour code can only end at the first character after ESC '['
      that is neither a digit nor ';'. Hence ColourCodeAt finds every code
      that begins `u`. */
  lemma ColourCodeAtIsOnlyMatch(u: string, n: nat)
    requires n <= |u| && IsColourCode(u[..n])
    ensures ColourCodeAt(u) == Some(n)
  {
    var e := ParamRunEnd(u, 2);
    var p := u[..n][2..n - 1];
    assert forall k :: 2 <= k < n - 1 ==> p[k - 2] == u[k];
    assert u[n - 1] == 'm';
    assert p == u[2..n - 1];
    assert e == n - 1;
  }

  lemma ColourCodeAtFindsAll(u: string)
    ensures forall n :: 0 <= n <= |u| && IsColourCode(u[..n]) ==> ColourCodeAt(u) == Some(n)
  {
    forall n | 0 <= n <= |u| && IsColourCode(u[..n])
      ensures ColourCodeAt(u) == Some(n)
    {
      ColourCodeAtIsOnlyMatch(u, n);
    }
  }

  /** `re.sub` with the colour-code pattern: scanning from the left, a colour
      code that begins at the current position is dropped whole, otherwise
      one character is kept. Never longer than its input, and text without
      an ESC character comes back unchanged. */
  function StripColourCodes(s: string): (r: string)
    ensures |r| <= |s|
    decreases |s|
  {
    if s == [] then []
    else
      match ColourCodeAt(s)
      case Some(n) => StripColourCodes(s[n..])
      case None => [s[0]] + StripColourCodes(s[1..])
  }

  /** Where a colour code begins, stripping drops it whole. */
  lemma StripDropsCode(s: string, n: nat)
    requires n <= |s| && IsColourCode(s[..n])
    ensures StripColourCodes(s) == StripColourCodes(s[n..])
  {
    ColourCodeAtIsOnlyMatch(s, n);
  }

  /** Where no colour code begins, stripping keeps the first character. */
  lemma StripKeepsHead(s: string)
    requires s != [] && ColourCodeAt(s).None?
    ensures StripColourCodes(s) == [s[0]] + StripColourCodes(s[1..])
  {
  }

  /** A character where no colour code begins is kept. */
  lemma StripKeepsChar(x: char, u: string)
    requires NoCodeAtStart([x] + u)
    ensures StripColourCodes([x] + u) == [x] + StripColourCodes(u)
  {
    assert ([x] + u)[1..] == u;
  }

  /** No colour code begins at a character other than ESC. */
  lemma NoCodeWithoutEsc(s: string)
    requires s != [] && s[0] != Esc
    ensures NoCodeAtStart(s)
  {
    forall n | 0 <= n <= |s|
      ensures !IsColourCode(s[..n])
    {
      if n > 0 {
        assert s[..n][0] == s[0];
      }
    }
  }

  /** A prefix without ESC passes through unchanged. */
  lemma {:induction false} StripPlainPrefix(a: string, b: string)
    requires Esc !in a
    ensures StripColourCodes(a + b) == a + StripColourCodes(b)
    decreases |a|
  {
    if a == [] {
      assert a + b == b;
    } else {
      assert a + b == [a[0]] + (a[1..] + b);
      NoCodeWithoutEsc(a + b);
      StripKeepsChar(a[0], a[1..] + b);
      StripPlainPrefix(a[1..], b);
    }
  }

  /** Text without an ESC character is left unchanged. */
  lemma StripWithoutEsc(s: string)
    requires Esc !in s
    ensures StripColourCodes(s) == s
  {
    StripPlainPrefix(s, []);
    assert s + [] == s;
  }

  /** A colour code holds no newline. */
  lemma CodeHasNoNewline(t: string)
    requires IsColourCode(t)
    ensures '\n' !in t
  {
    var p := t[2..|t| - 1];
    forall i | 0 <= i < |t|
      ensures t[i] != '\n'
    {
      if 2 <= i < |t| - 1 {
        assert t[i] == p[i - 2];
      }
    }
  }

  /** A colour code at the front of `a + b` lies inside `a` when a newline
      sits next to the boundary between them. */
  lemma CodeStopsAtNewline(a: string, b: string, n: nat)
    requires (a != [] && a[|a| - 1] == '\n') || (b != [] && b[0] == '\n')
    requires n <= |a + b| && IsColourCode((a + b)[..n])
    ensures n <= |a| && (a + b)[..n] == a[..n]
  {
    CodeHasNoNewline((a + b)[..n]);
    if a != [] && a[|a| - 1] == '\n' {
      PrefixStopsBefore(a + b, n, |a| - 1);
    } else {
      PrefixStopsBefore(a + b, n, |a|);
    }
  }

  /** A prefix without newline ends at or before any newline. */
  lemma PrefixStopsBefore(s: string, n: nat, i: nat)
    requires n <= |s| && '\n' !in s[..n] && i < |s| && s[i] == '\n'
    ensures n <= i
  {
  }

  /** Stripping works line by line: no colour code spans a newline, so text
      split next to a newline strips part by part. */
  lemma {:induction false} StripSplitsAtNewline(a: string, b: string)
    requires a == [] || a[|a| - 1] == '\n' || (b != [] && b[0] == '\n')
    ensures StripColourCodes(a + b) == StripColourCodes(a) + StripColourCodes(b)
    decreases |a|
  {
    if a == [] {
      assert a + b == b;
    } else {
      var s := a + b;
      match ColourCodeAt(s)
      case Some(n) =>
        CodeStopsAtNewline(a, b, n);
        ColourCodeAtIsOnlyMatch(a, n);
        assert s[n..] == a[n..] + b;
        StripSplitsAtNewline(a[n..], b);
      case None =>
        if ColourCodeAt(a).Some? {
          var m := ColourCodeAt(a).value;
          assert s[..m] == a[..m];
          ColourCodeAtIsOnlyMatch(s, m);
        }
        assert s[1..] == a[1..] + b;
        StripSplitsAtNewline(a[1..], b);
    }
  }

  /** Text wrapped in two colour codes keeps only the text. */
  lemma StripCodeTextCode(c1: string, txt: string, c2: string, rest: string)
    requires IsColourCode(c1) && IsColourCode(c2) && Esc !in txt && Esc !in rest
    ensures StripColourCodes(c1 + txt + c2 + rest) == txt + rest
  {
    var s := c1 + txt + c2 + rest;
    assert s == c1 + (txt + (c2 + rest));
    assert s[..|c1|] == c1;
    StripDropsCode(s, |c1|);
    assert s[|c1|..] == txt + (c2 + rest);
    StripPlainPrefix(txt, c2 + rest);
    assert (c2 + rest)[..|c2|] == c2;
    StripDropsCode(c2 + rest, |c2|);
    assert (c2 + rest)[|c2|..] == rest;
    StripWithoutEsc(rest);
  }

  /** The escape sequence ESC '[' `p` 'm', a colour code when `p` is a
      parameter list. */
  function Sgr(p: string): (t: string)
    ensures |t| == |p| + 3 && t[2..|t| - 1] == p
  {
    [Esc, '['] + p + ['m']
  }

  lemma SgrIsColourCode(p: string)
    requires IsParamList(p)
    ensures IsColourCode(Sgr(p))
  {
  }

  /** A single run of digits is a parameter list. */
  lemma DigitsAreParamList(p: string)
    requires |p| > 0 && forall i :: 0 <= i < |p| ==> IsDigit(p[i])
    ensures IsParamList(p)
  {
    assert ';' !in p by {
      forall i | 0 <= i < |p|
        ensures p[i] != ';'
      {
        assert IsDigit(p[i]);
      }
    }
    CountCharZero(p, ';');
  }

  /** The digits and ';' after ESC '[' are read as far as they go, so they
      must form a parameter list for a colour code to begin. */
  lemma NoCodeUnlessParamList(p: string)
    requires forall i :: 0 <= i < |p| ==> IsDigit(p[i]) || p[i] == ';'
    requires !IsParamList(p)
    ensures ColourCodeAt(Sgr(p)).None?
  {
    var s := Sgr(p);
    var e := ParamRunEnd(s, 2);
    assert forall k :: 2 <= k < 2 + |p| ==> s[k] == p[k - 2];
    assert s[2 + |p|] == 'm';
  }

  /** A red "FAIL": ESC "[31mFAIL" ESC "[0m" loses both codes. */
  lemma StripExample(red: string, reset: string)
    requires red == Sgr("31") && reset == Sgr("0")
    ensures StripColourCodes(red + "FAIL" + reset) == "FAIL"
  {
    DigitsAreParamList("31");
    DigitsAreParamList("0");
    SgrIsColourCode("31");
    SgrIsColourCode("0");
    StripCodeTextCode(red, "FAIL", reset, []);
    assert red + "FAIL" + reset + [] == red + "FAIL" + reset;
    assert "FAIL" + [] == "FAIL";
  }

  /** An escape sequence whose parameters are not a parameter list is left
      as it is, e.g. one without digits or with four groups. */
  lemma StripKeepsMalformedCode(p: string)
    requires forall i :: 0 <= i < |p| ==> IsDigit(p[i]) || p[i] == ';'
    requires !IsParamList(p)
    ensures StripColourCodes(Sgr(p)) == Sgr(p)
  {
    var s := Sgr(p);
    NoCodeUnlessParamList(p);
    StripKeepsHead(s);
    assert Esc !in s[1..] by {
      forall k | 0 <= k < |s[1..]|
        ensures s[1..][k] != Esc
      {
        if 1 <= k <= |p| {
          assert s[1..][k] == p[k - 1];
        }
      }
    }
    StripWithoutEsc(s[1..]);
  }

  /** ESC "[m" has no digits and stays. */
  lemma StripLeavesCodeWithoutDigits()
    ensures StripColourCodes(Sgr([])) == Sgr([])
  {
    StripKeepsMalformedCode([]);
  }

  /** A fourth parameter group is one too many: ESC "[1;2;3;4m" stays. */
  lemma StripLeavesCodeWithFourGroups(p: string)
    requires p == "1;2;3;4"
    ensures StripColourCodes(Sgr(p)) == Sgr(p)
  {
    CountCharAppend("1;2;", "3;4", ';');
    CountCharAppend("1;", "2;", ';');
    assert "1;2;" + "3;4" == p;
    assert "1;" + "2;" == "1;2;";
    StripKeepsMalformedCode(p);
  }

  /** A colour code followed by plain text leaves the text. */
  lemma StripCodeThenPlain(c: string, tail: string)
    requires IsColourCode(c) && Esc !in tail
    ensures StripColourCodes(c + tail) == tail
  {
    assert (c + tail)[..|c|] == c;
    StripDropsCode(c + tail, |c|);
    assert (c + tail)[|c|..] == tail;
    StripWithoutEsc(tail);
  }

  /** ESC '[' directly before another ESC begins no code and is kept. */
  lemma StripKeepsOpenBracket(s: string)
    requires |s| >= 3 && s[0] == Esc && s[1] == '[' && s[2] == Esc
    ensures StripColourCodes(s) == s[..2] + StripColourCodes(s[2..])
  {
    NoCodeBeforeEsc(s);
    StripKeepsHead(s);
    StripKeepsHead(s[1..]);
    assert s[1..][1..] == s[2..];
    ConsTwo(s, StripColourCodes(s[2..]));
  }

  lemma ConsTwo(s: string, u: string)
    requires |s| >= 2
    ensures [s[0]] + ([s[1]] + u) == s[..2] + u
  {
  }

  /** No code begins at ESC '[' ESC. */
  lemma NoCodeBeforeEsc(s: string)
    requires |s| >= 3 && s[2] == Esc
    ensures ColourCodeAt(s).None?
  {
    assert ParamRunEnd(s, 2) == 2;
  }

  /** Stripping is not idempotent: removing a code `c` can join ESC '['
      before it and its parameters and 'm' after it into a new code. */
  lemma StripNotIdempotent(p: string)
    requires IsParamList(p)
    ensures var c := Sgr(p);
      StripColourCodes([Esc, '['] + c + p + ['m']) == c && StripColourCodes(c) == []
  {
    var c := Sgr(p);
    var tail := p + ['m'];
    SgrIsColourCode(p);
    Regroup3([Esc, '['], c, p, ['m']);
    Regroup3([Esc, '['], p, ['m'], []);
    assert c == [Esc, '['] + tail;
    assert Esc !in tail by {
      assert forall k :: 0 <= k < |p| ==> IsDigit(p[k]) || p[k] == ';';
    }
    StripCodeThenPlain(c, tail);
    var s := [Esc, '['] + (c + tail);
    assert s[..2] == [Esc, '['] && s[2..] == c + tail;
    StripKeepsOpenBracket(s);
    StripCodeThenPlain(c, []);
    assert c + [] == c;
  }

  lemma Regroup3(a: string, b: string, c: string, d: string)
    ensures a + b + c + d == a + (b + (c + d))
  {
  }

  /** One step of a left-to-right scan: a kept character or a removed code. */
  datatype Piece = Kept(c: char) | Removed(code: string)

  function KeptText(ps: seq<Piece>): string
  {
    if ps == [] then [] else (if ps[0].Kept? then [ps[0].c] else []) + KeptText(ps[1..])
  }

  /** `ps` reads `s` from left to right the way `re.sub` does with a pattern
      whose match at any position is unique: where a colour code begins it
      is removed as a whole, and a character is kept only where no colour
      code begins. */
  ghost predicate ScansAs(s: string, ps: seq<Piece>)
    decreases ps
  {
    if ps == [] then s == []
    else
      match ps[0]
      case Removed(t) => IsColourCode(t) && |t| <= |s| && s[..|t|] == t && ScansAs(s[|t|..], ps[1..])
      case Kept(c) => s != [] && s[0] == c && NoCodeAtStart(s) && ScansAs(s[1..], ps[1..])
  }

  /** Whatever left-to-right scan of `s` one takes, stripping keeps exactly
      its kept characters. */
  lemma {:induction false} StripKeepsScannedText(s: string, ps: seq<Piece>)
    requires ScansAs(s, ps)
    ensures StripColourCodes(s) == KeptText(ps)
    decreases ps
  {
    if ps != [] {
      match ps[0]
      case Removed(t) =>
        assert s[..|t|] == t;
        ColourCodeAtIsOnlyMatch(s, |t|);
        StripKeepsScannedText(s[|t|..], ps[1..]);
      case Kept(c) =>
        assert ColourCodeAt(s).None?;
        StripKeepsScannedText(s[1..], ps[1..]);
    }
  }

  lemma ScanRemoved(s: string, t: string, ps: seq<Piece>)
    requires IsColourCode(t) && |t| <= |s| && s[..|t|] == t && ScansAs(s[|t|..], ps)
    ensures ScansAs(s, [Removed(t)] + ps) && KeptText([Removed(t)] + ps) == KeptText(ps)
  {
    assert ([Removed(t)] + ps)[1..] == ps;
  }

  lemma ScanKept(s: string, ps: seq<Piece>)
    requires s != [] && NoCodeAtStart(s) && ScansAs(s[1..], ps)
    ensures ScansAs(s, [Kept(s[0])] + ps) && KeptText([Kept(s[0])] + ps) == [s[0]] + KeptText(ps)
  {
    assert ([Kept(s[0])] + ps)[1..] == ps;
  }

  /** Every string has a left-to-right scan, and stripping keeps its text. */
  lemma {:induction false} StripIsLeftToRightScan(s: string) returns (ps: seq<Piece>)
    ensures ScansAs(s, ps) && KeptText(ps) == StripColourCodes(s)
    decreases |s|
  {
    if s == [] {
      ps := [];
    } else {
      match ColourCodeAt(s)
      case Some(n) =>
        var rest := StripIsLeftToRightScan(s[n..]);
        ScanRemoved(s, s[..n], rest);
        ps := [Removed(s[..n])] + rest;
      case None =>
        var rest := StripIsLeftToRightScan(s[1..]);
        ColourCodeAtFindsAll(s);
        ScanKept(s, rest);
        ps := [Kept(s[0])] + rest;
    }
  }

  /** `a` is obtained from `b` by deleting characters. */
  ghost predicate IsSubsequence(a: string, b: string)
    decreases |b|
  {
    if a == [] then true
    else if b == [] then false
    else (a[0] == b[0] && IsSubsequence(a[1..], b[1..])) || IsSubsequence(a, b[1..])
  }

  lemma {:induction false} SubsequenceOfSuffix(a: string, b: string, k: nat)
    requires k <= |b| && IsSubsequence(a, b[k..])
    ensures IsSubsequence(a, b)
    decreases k
  {
    if k > 0 {
      assert b[k - 1..][1..] == b[k..];
      SubsequenceOfSuffix(a, b, k - 1);
    }
  }

  /** Stripping only deletes characters. */
  lemma {:induction false} StripIsSubsequence(s: string)
    ensures IsSubsequence(StripColourCodes(s), s)
    decreases |s|
  {
    if s != [] {
      match ColourCodeAt(s)
      case Some(n) =>
        StripIsSubsequence(s[n..]);
        SubsequenceOfSuffix(StripColourCodes(s), s, n);
      case None =>
        StripIsSubsequence(s[1..]);
        var r := StripColourCodes(s);
        assert r[0] == s[0] && r[1..] == StripColourCodes(s[1..]);
    }
  }

  /* ---------------------------------------------------------------------
     Node id and temporary output file name
     --------------------------------------------------------------------- */

  /** get_pytest_input once reflection has supplied the test's module path
      (relative to the working directory) and its qualified name: the node id
      pytest accepts to run only that test. */
  function PytestInput(modulePath: string, qualname: string): (r: string)
    ensures r == modulePath + "::" + ReplaceAll(qualname, ".", "::")
  {
    JoinSplitIsReplace(qualname, '.', "::");
    modulePath + "::" + Join(Split(qualname, '.'), "::")
  }

  /** temp_ouput_file: every '/' becomes '.', then every "::" met from the
      left becomes '.'. */
  function TempOutputFile(pytestInput: string): (r: string)
    ensures '/' !in r
    ensures forall i :: !OccursAt(r, "::", i)
  {
    var once := ReplaceAll(pytestInput, "/", ".");
    ReplaceCharPointwise(pytestInput, '/', '.');
    assert '/' !in once;
    ReplaceAllChars(once, "::", ".", '/');
    ReplacePairLeavesNoPair(once, ':', ".");
    ReplaceAll(once, "::", ".")
  }

  /** Turning the qualified name's '.' into "::" and then back into '.' with
      the two passes of temp_ouput_file gives the name with '/' as '.'. */
  lemma {:induction false} QualnameRoundTrip(qualname: string)
    requires ':' !in qualname
    ensures ReplaceAll(ReplaceAll(ReplaceAll(qualname, ".", "::"), "/", "."), "::", ".")
         == ReplaceAll(qualname, "/", ".")
    decreases |qualname|
  {
    if qualname != [] {
      var x, rest := qualname[0], qualname[1..];
      QualnameRoundTrip(rest);
      var head: string := if x == '.' then "::" else [x];
      assert OccursAt(qualname, ".", 0) <==> x == '.';
      assert ReplaceAll(qualname, ".", "::") == head + ReplaceAll(rest, ".", "::");
      ReplaceCharAppend(head, ReplaceAll(rest, ".", "::"), '/', ".");
      ReplaceCharAppend([x], rest, '/', ".");
      assert [x] + rest == qualname;
      var y := ReplaceAll(ReplaceAll(rest, ".", "::"), "/", ".");
      if x == '.' {
        ReplaceAllFirstOccurrence([], y, "::", ".");
        assert [] + "::" + y == "::" + y;
      } else {
        var z := ReplaceAll([x], "/", ".");
        assert OccursAt([x], "/", 0) <==> x == '/';
        assert z == (if x == '/' then "." else [x]);
        ReplaceAllSkipsPrefix(z, y, "::", ".");
      }
    }
  }

  lemma SlashPassOfPytestInput(modulePath: string, qualname: string)
    ensures ReplaceAll(PytestInput(modulePath, qualname), "/", ".")
         == ReplaceAll(modulePath, "/", ".") + "::" + ReplaceAll(ReplaceAll(qualname, ".", "::"), "/", ".")
  {
    var joined := ReplaceAll(qualname, ".", "::");
    assert modulePath + "::" + joined == modulePath + ("::" + joined);
    ReplaceCharAppend(modulePath, "::" + joined, '/', ".");
    ReplaceCharAppend("::", joined, '/', ".");
  }

  /** The temporary file of a test is named by its module path and qualified
      name with every separator turned into '.', when neither contains ':'. */
  lemma TempOutputFileOfPytestInput(modulePath: string, qualname: string)
    requires ':' !in modulePath && ':' !in qualname
    ensures TempOutputFile(PytestInput(modulePath, qualname))
         == ReplaceAll(modulePath, "/", ".") + "." + ReplaceAll(qualname, "/", ".")
  {
    SlashPassOfPytestInput(modulePath, qualname);
    var m := ReplaceAll(modulePath, "/", ".");
    var j := ReplaceAll(ReplaceAll(qualname, ".", "::"), "/", ".");
    ReplaceAllChars(modulePath, "/", ".", ':');
    ReplaceAllFirstOccurrence(m, j, "::", ".");
    QualnameRoundTrip(qualname);
  }

  /** The node id of a method `fn` of a class `cls`: "<path>::<cls>::<fn>". */
  lemma NodeIdOfMethod(modulePath: string, cls: string, fn: string)
    requires '.' !in cls && '.' !in fn
    ensures PytestInput(modulePath, cls + "." + fn) == modulePath + "::" + cls + "::" + fn
  {
    ReplaceAllFirstOccurrence(cls, fn, ".", "::");
    Regroup4(modulePath, "::", cls, "::", fn);
  }

  lemma Regroup4(a: string, b: string, c: string, d: string, e: string)
    ensures a + b + (c + d + e) == a + b + c + d + e
  {
  }

  /** The temporary file of a method `fn` of a class `cls` in the module
      "<dir>/<file>": every separator of its node id becomes '.'. */
  lemma TempOutputFileOfMethod(dir: string, file: string, cls: string, fn: string)
    requires '/' !in dir && '/' !in file && '/' !in cls && '/' !in fn
    requires ':' !in dir && ':' !in file && ':' !in cls && ':' !in fn
    ensures TempOutputFile(PytestInput(dir + "/" + file, cls + "." + fn))
         == dir + "." + file + "." + cls + "." + fn
  {
    var path, qualname := dir + "/" + file, cls + "." + fn;
    assert ':' !in path && ':' !in qualname && '/' !in qualname;
    TempOutputFileOfPytestInput(path, qualname);
    ReplaceAllFirstOccurrence(dir, file, "/", ".");
    Regroup4(dir + "." + file, ".", cls, ".", fn);
  }

  /* ---------------------------------------------------------------------
     Failure detection
     --------------------------------------------------------------------- */

  /** The banner of pytest's failures section, as contains_failure looks for it. */
  const FailuresBanner := "= FAILURES ="

  /** contains_failure: the output holds the failures banner. */
  function ContainsFailure(message: string): (found: bool)
    ensures found <==> Contains(message, FailuresBanner)
  {
    IndexOf(message, FailuresBanner, 0).Some?
  }

  /** A failure found by contains_failure always carries get_traceback's
      looser opening marker, so get_traceback then never reports
      NoTraceback. */
  lemma FailureHasTracebackMarker(message: string)
    requires ContainsFailure(message)
    ensures Contains(message, FailuresOpen)
  {
    var i :| OccursAt(message, FailuresBanner, i);
    assert message[i..i + |FailuresOpen|] == message[i..i + |FailuresBanner|][..|FailuresOpen|];
    assert OccursAt(message, FailuresOpen, i);
  }

  /* ---------------------------------------------------------------------
     Traceback extraction
     --------------------------------------------------------------------- */

  /** get_traceback's opening marker: the failures banner without its
      closing '=', to allow for the banner's padding. */
  const FailuresOpen := "= FAILURES "

  /** get_traceback's closing marker: the title of the short summary. */
  const SummaryTitle := "short test summary info"

  ghost predicate IsFirstOccurrence(s: string, p: string, i: int)
  {
    OccursAt(s, p, i) && forall j :: 0 <= j < i ==> !OccursAt(s, p, j)
  }

  ghost predicate IsLastOccurrence(s: string, p: string, i: int)
  {
    OccursAt(s, p, i) && forall j :: i < j ==> !OccursAt(s, p, j)
  }

  /** `start` is where the traceback begins: the third newline after the
      first "= FAILURES " (the banner line and two more lines are skipped,
      and the third newline itself belongs to the traceback). */
  ghost predicate IsTracebackStart(s: string, start: int)
  {
    0 <= start < |s| && s[start] == '\n' &&
    exists f :: IsFirstOccurrence(s, FailuresOpen, f) && f < start &&
                CountChar(s[f + 1..start], '\n') == 2
  }

  /** `end` is where the traceback stops: the last newline lying wholly
      before the last "short test summary info". */
  ghost predicate IsTracebackEnd(s: string, end: int)
  {
    0 <= end < |s| && s[end] == '\n' &&
    exists t :: IsLastOccurrence(s, SummaryTitle, t) && end < t && '\n' !in s[end + 1..t]
  }

  lemma NewlineAt(s: string, j: int)
    requires 0 <= j < |s|
    ensures OccursAt(s, "\n", j) <==> s[j] == '\n'
  {
    assert s[j..j + 1] == [s[j]];
  }

  /** One more newline found by `str.index` raises the count by one. */
  lemma NewlineCountStep(s: string, f: nat, index: nat, next: nat)
    requires f <= index < next < |s| && s[next] == '\n'
    requires forall j :: index + 1 <= j < next ==> !OccursAt(s, "\n", j)
    ensures CountChar(s[f + 1..next + 1], '\n') == CountChar(s[f + 1..index + 1], '\n') + 1
  {
    var gap := s[index + 1..next];
    forall j | 0 <= j < |gap| ensures gap[j] != '\n' {
      NewlineAt(s, index + 1 + j);
    }
    CountCharZero(gap, '\n');
    assert s[f + 1..next + 1] == s[f + 1..index + 1] + gap + [s[next]];
    CountCharAppend(s[f + 1..index + 1], gap, '\n');
    CountCharAppend(s[f + 1..index + 1] + gap, [s[next]], '\n');
  }

  /** Counting newlines over a longer stretch never gives fewer. */
  lemma CountCharWiden(s: string, i: nat, j: nat, k: nat, c: char)
    requires i <= j <= k <= |s|
    ensures CountChar(s[i..j], c) <= CountChar(s[i..k], c)
  {
    assert s[i..k] == s[i..j] + s[j..k];
    CountCharAppend(s[i..j], s[j..k], c);
  }

  /** When `str.index` finds no newline after the k-th (k < 3), there is no
      third one. */
  lemma NoTracebackStartBeyond(s: string, f: nat, index: nat, k: nat)
    requires IsFirstOccurrence(s, FailuresOpen, f) && f <= index < |s| && k < 3
    requires CountChar(s[f + 1..index + 1], '\n') == k
    requires forall j :: index + 1 <= j ==> !OccursAt(s, "\n", j)
    ensures forall start :: !IsTracebackStart(s, start)
  {
    forall start | f < start < |s| && s[start] == '\n'
      ensures CountChar(s[f + 1..start], '\n') != 2
    {
      NewlineAt(s, start);
      assert start <= index;
      assert s[f + 1..start + 1] == s[f + 1..start] + [s[start]];
      CountCharAppend(s[f + 1..start], [s[start]], '\n');
      CountCharWiden(s, f + 1, start + 1, index + 1, '\n');
    }
  }

  lemma TracebackStartAt(s: string, f: nat, index: nat)
    requires IsFirstOccurrence(s, FailuresOpen, f) && f <= index < |s| && s[index] == '\n'
    requires CountChar(s[f + 1..index + 1], '\n') == 3
    ensures IsTracebackStart(s, index)
  {
    assert s[f + 1..index + 1] == s[f + 1..index] + [s[index]];
    CountCharAppend(s[f + 1..index], [s[index]], '\n');
  }

  lemma TracebackEndAt(s: string, t: nat, end: nat)
    requires IsLastOccurrence(s, SummaryTitle, t) && end < t && OccursAt(s, "\n", end)
    requires forall j :: end < j && j + 1 <= t ==> !OccursAt(s, "\n", j)
    ensures IsTracebackEnd(s, end)
  {
    var gap := s[end + 1..t];
    forall j | 0 <= j < |gap| ensures gap[j] != '\n' {
      NewlineAt(s, end + 1 + j);
    }
    NewlineAt(s, end);
  }

  lemma NoTracebackEndWithoutTitle(s: string)
    requires forall j :: j + |SummaryTitle| <= |s| ==> !OccursAt(s, SummaryTitle, j)
    ensures forall end :: !IsTracebackEnd(s, end)
  {
  }

  lemma NoTracebackEndBeforeTitle(s: string, t: nat)
    requires IsLastOccurrence(s, SummaryTitle, t)
    requires forall j :: j + 1 <= t ==> !OccursAt(s, "\n", j)
    ensures forall end :: !IsTracebackEnd(s, end)
  {
    forall end | 0 <= end < t ensures s[end] != '\n' {
      NewlineAt(s, end);
    }
  }

  /** The loop of get_traceback: from the first "= FAILURES " at `first`,
      three calls of `str.index` for a newline, each searching after the
      previous hit; None where one of them would raise. */
  method SkipThreeLines(message: string, first: nat) returns (r: Option<nat>)
    requires IsFirstOccurrence(message, FailuresOpen, first)
    ensures r.Some? ==> IsTracebackStart(message, r.value)
    ensures r.None? ==> forall start :: !IsTracebackStart(message, start)
  {
    var index := first;
    for k := 0 to 3
      invariant first <= index < |message|
      invariant CountChar(message[first + 1..index + 1], '\n') == k
      invariant k > 0 ==> message[index] == '\n'
    {
      var next := IndexOf(message, "\n", index + 1);
      if next.None? {
        NoTracebackStartBeyond(message, first, index, k);
        return None;
      }
      NewlineAt(message, next.value);
      NewlineCountStep(message, first, index, next.value);
      index := next.value;
    }
    TracebackStartAt(message, first, index);
    r := Some(index);
  }

  /** `t` is Python's `s[start:end]` for indices inside `s`: empty when
      `end <= start`, the characters from `start` up to `end` otherwise. */
  ghost predicate IsPythonSlice(s: string, start: int, end: int, t: string)
  {
    (end <= start ==> t == []) &&
    (start < end ==> 0 <= start && end <= |s| && t == s[start..end])
  }

  /** get_traceback. Every lookup that Python would let raise becomes
      LookupFailed. */
  method GetTraceback(message: string) returns (r: Result<string>)
    ensures r == Err(NoTraceback) <==> !Contains(message, FailuresOpen)
    ensures r.Ok? <==> (exists start :: IsTracebackStart(message, start)) &&
                       (exists end :: IsTracebackEnd(message, end))
    ensures r.Err? ==> r.error == NoTraceback || r.error == LookupFailed
    ensures r.Ok? ==> exists start, end ::
              IsTracebackStart(message, start) && IsTracebackEnd(message, end) &&
              IsPythonSlice(message, start, end, r.value)
    ensures r.Ok? && r.value != [] ==> r.value[0] == '\n'
  {
    var first := IndexOf(message, FailuresOpen, 0);
    if first.None? {
      return Err(NoTraceback);
    }
    assert IsFirstOccurrence(message, FailuresOpen, first.value);
    var start := SkipThreeLines(message, first.value);
    if start.None? {
      return Err(LookupFailed);
    }
    var index := start.value;

    var last := LastIndexOf(message, SummaryTitle, |message|);
    if last.None? {
      NoTracebackEndWithoutTitle(message);
      return Err(LookupFailed);
    }
    var summaryIndex := last.value;
    var before := LastIndexOf(message, "\n", summaryIndex);
    if before.None? {
      NoTracebackEndBeforeTitle(message, summaryIndex);
      return Err(LookupFailed);
    }
    var endIndex := before.value;
    TracebackEndAt(message, summaryIndex, endIndex);
    var traceback := Slice(message, index, endIndex);
    assert IsTracebackStart(message, index) && IsTracebackEnd(message, endIndex) &&
           IsPythonSlice(message, index, endIndex, traceback);
    r := Ok(traceback);
  }

  /** A newline inside a stretch adds one to the count of any longer stretch. */
  lemma CountPastNewline(s: string, i: nat, a: nat, b: nat)
    requires i <= a < b <= |s| && s[a] == '\n'
    ensures CountChar(s[i..b], '\n') >= CountChar(s[i..a], '\n') + 1
  {
    assert s[i..a + 1] == s[i..a] + [s[a]];
    CountCharAppend(s[i..a], [s[a]], '\n');
    CountCharWiden(s, i, a + 1, b, '\n');
  }

  /** The start of the traceback is unique. */
  lemma TracebackStartUnique(s: string, a: int, b: int)
    requires IsTracebackStart(s, a) && IsTracebackStart(s, b)
    ensures a == b
  {
    var f :| IsFirstOccurrence(s, FailuresOpen, f) && f < a && CountChar(s[f + 1..a], '\n') == 2;
    var g :| IsFirstOccurrence(s, FailuresOpen, g) && g < b && CountChar(s[g + 1..b], '\n') == 2;
    assert f == g;
    if a < b {
      CountPastNewline(s, f + 1, a, b);
    }
    if b < a {
      CountPastNewline(s, f + 1, b, a);
    }
  }

  /** The end of the traceback is unique. */
  lemma TracebackEndUnique(s: string, a: int, b: int)
    requires IsTracebackEnd(s, a) && IsTracebackEnd(s, b)
    ensures a == b
  {
    var t :| IsLastOccurrence(s, SummaryTitle, t) && a < t && '\n' !in s[a + 1..t];
    var u :| IsLastOccurrence(s, SummaryTitle, u) && b < u && '\n' !in s[b + 1..u];
    assert t == u;
  }

  /** The `n`-th newline (counting from 0) of a text with more than `n` of them. */
  lemma {:induction false} NthNewline(u: string, n: nat) returns (i: nat)
    requires CountChar(u, '\n') > n
    ensures i < |u| && u[i] == '\n' && CountChar(u[..i], '\n') == n
    decreases |u|
  {
    assert u != [];
    assert u[..1] == [u[0]];
    if u[0] == '\n' && n == 0 {
      i := 0;
    } else {
      var m := if u[0] == '\n' then n - 1 else n;
      var j := NthNewline(u[1..], m);
      i := j + 1;
      assert u[..i] == [u[0]] + u[1..][..j];
      CountCharAppend([u[0]], u[1..][..j], '\n');
    }
  }

  /** get_traceback finds its start exactly when at least three newlines
      follow the first "= FAILURES ". */
  lemma TracebackStartExists(s: string, f: nat)
    requires IsFirstOccurrence(s, FailuresOpen, f)
    ensures (exists start :: IsTracebackStart(s, start)) <==> CountChar(s[f + 1..], '\n') >= 3
  {
    if CountChar(s[f + 1..], '\n') >= 3 {
      var i := NthNewline(s[f + 1..], 2);
      assert s[f + 1..][..i] == s[f + 1..f + 1 + i];
      assert IsTracebackStart(s, f + 1 + i);
    }
    if start :| IsTracebackStart(s, start) {
      var g :| IsFirstOccurrence(s, FailuresOpen, g) && g < start && CountChar(s[g + 1..start], '\n') == 2;
      assert g == f;
      CountPastNewline(s, f + 1, start, |s|);
      assert s[f + 1..] == s[f + 1..|s|];
    }
  }

  /** get_traceback finds its end exactly when a newline precedes the last
      "short test summary info". */
  lemma TracebackEndExists(s: string, t: nat)
    requires IsLastOccurrence(s, SummaryTitle, t)
    ensures (exists end :: IsTracebackEnd(s, end)) <==> '\n' in s[..t]
  {
    if '\n' in s[..t] {
      var k :| 0 <= k < t && s[..t][k] == '\n';
      NewlineAt(s, k);
      var before := LastIndexOf(s, "\n", t);
      TracebackEndAt(s, t, before.value);
    }
    if end :| IsTracebackEnd(s, end) {
      var u :| IsLastOccurrence(s, SummaryTitle, u) && end < u && '\n' !in s[end + 1..u];
      assert u == t;
      assert s[..t][end] == '\n';
    }
  }

  /* ---------------------------------------------------------------------
     Summary extraction: the pattern
       =* short test summary info =*\nFAILED .*?::.*? - (.*)
     searched for in the colour-stripped output
     --------------------------------------------------------------------- */

  /** The literal part of the pattern's first line, spaces included. */
  const SummaryBanner := " short test summary info "

  const FailedPrefix := "FAILED "

  /** `s[i..j]` holds no newline, so `.` can match all of it. */
  ghost predicate LineFree(s: string, i: int, j: int)
  {
    0 <= i <= j <= |s| && forall k :: i <= k < j ==> s[k] != '\n'
  }

  /** The pattern's prefix ` short test summary info =*\nFAILED ` matches
      from `q`, its newline being at `n`. A `=*` in front of the banner only
      moves the start of the match back over '=' characters and does not
      change the group. */
  ghost predicate FailedLine(s: string, q: int, n: int)
  {
    OccursAt(s, SummaryBanner, q) &&
    q + |SummaryBanner| <= n < |s| && s[n] == '\n' &&
    (forall k :: q + |SummaryBanner| <= k < n ==> s[k] == '=') &&
    OccursAt(s, FailedPrefix, n + 1)
  }

  /** The rest of the pattern, `.*?::.*? - `, matches from `c` for some
      choice of what its `.*?` take: a "::" at `a` and then a " - " at `b`,
      with no newline from `c` up to them. */
  ghost predicate TestIdShape(s: string, c: int, a: int, b: int)
  {
    c <= a && OccursAt(s, "::", a) && LineFree(s, c, a) &&
    a + 2 <= b && OccursAt(s, " - ", b) && LineFree(s, a + 2, b)
  }

  /** The choice `re.search` settles on: each lazy `.*?` takes the shortest
      text that lets the rest match (the first "::", then the first " - "
      after it), and the greedy group `(.*)` runs from `b + 3` to the end of
      the line at `e`. */
  ghost predicate TestIdMatch(s: string, c: int, a: int, b: int, e: int)
  {
    TestIdShape(s, c, a, b) &&
    (forall k :: c <= k < a ==> !OccursAt(s, "::", k)) &&
    (forall k :: a + 2 <= k < b ==> !OccursAt(s, " - ", k)) &&
    b + 3 <= e && LineFree(s, b + 3, e) && (e == |s| || s[e] == '\n')
  }

  /** The whole pattern can match with its banner at `q`. */
  ghost predicate SummaryShape(s: string, q: int, n: int, a: int, b: int)
  {
    FailedLine(s, q, n) && TestIdShape(s, n + 1 + |FailedPrefix|, a, b)
  }

  /** The match `re.search` makes with its banner at `q`; its group is `s[b + 3..e]`. */
  ghost predicate SummaryMatch(s: string, q: int, n: int, a: int, b: int, e: int)
  {
    FailedLine(s, q, n) && TestIdMatch(s, n + 1 + |FailedPrefix|, a, b, e)
  }

  /** The first index at or after `i` that is not '='. */
  function EqualsRunEnd(s: string, i: nat): (e: nat)
    requires i <= |s|
    ensures i <= e <= |s| && (forall k :: i <= k < e ==> s[k] == '=')
    ensures e < |s| ==> s[e] != '='
    decreases |s| - i
  {
    if i < |s| && s[i] == '=' then EqualsRunEnd(s, i + 1) else i
  }

  /** The end of the line holding index `i`: the first newline at or after
      `i`, or the end of the text. */
  function LineEnd(s: string, i: nat): (e: nat)
    requires i <= |s|
    ensures i <= e && LineFree(s, i, e) && (e == |s| || s[e] == '\n')
    decreases |s| - i
  {
    if i == |s| || s[i] == '\n' then i else LineEnd(s, i + 1)
  }

  /** Where the banner line starting at `q` ends, if the pattern's prefix
      matches there; the '=' run leaves no choice. */
  function FailedLineAt(s: string, q: nat): (r: Option<nat>)
    ensures r.Some? ==> q + |SummaryBanner| <= r.value < |s| && s[r.value] == '\n'
  {
    if !OccursAt(s, SummaryBanner, q) then None
    else
      var n := EqualsRunEnd(s, q + |SummaryBanner|);
      if n == |s| || s[n] != '\n' || !OccursAt(s, FailedPrefix, n + 1) then None
      else Some(n)
  }

  /** A line end that FailedLineAt reports ends the pattern's first line. */
  lemma FailedLineAtSound(s: string, q: nat)
    requires FailedLineAt(s, q).Some?
    ensures FailedLine(s, q, FailedLineAt(s, q).value)
  {
  }

  /** FailedLineAt misses no first line of the pattern. */
  lemma FailedLineAtComplete(s: string, q: nat, n: int)
    requires FailedLine(s, q, n)
    ensures FailedLineAt(s, q) == Some(n)
  {
  }

  /** The group captured by `.*?::.*? - (.*)` matched from `c`, if it matches there. */
  function TestIdGroup(s: string, c: nat): (r: Option<string>)
    ensures r.Some? ==> '\n' !in r.value
  {
    if c > |s| then None
    else
      var eol := LineEnd(s, c);
      match IndexOf(s, "::", c)
      case None => None
      case Some(a) =>
        if eol < a + 2 then None
        else
          match IndexOf(s, " - ", a + 2)
          case None => None
          case Some(b) =>
            if eol < b + 3 then None
            else Some(s[b + 3..LineEnd(s, b + 3)])
  }

  /** The group the pattern captures when its banner starts at `q`, if the
      pattern matches there. */
  function SummaryAt(s: string, q: nat): (r: Option<string>)
    ensures r.Some? ==> '\n' !in r.value
  {
    var line := FailedLineAt(s, q);
    if line.None? then None else TestIdGroup(s, line.value + 1 + |FailedPrefix|)
  }

  /** Wherever `.*?::.*? - ` can match, the matcher finds a match: taking the
      first "::" and the first " - " never loses one. */
  lemma TestIdFound(s: string, c: nat, a: int, b: int)
    requires TestIdShape(s, c, a, b)
    ensures TestIdGroup(s, c).Some?
  {
    var eol := LineEnd(s, c);
    assert s[a..a + 2] == "::";
    assert s[a] == ':' && s[a + 1] == ':';
    assert eol >= a + 2;
    var a0 := IndexOf(s, "::", c).value;
    assert a0 <= a;
    assert s[b..b + 3] == " - ";
    assert s[b] == ' ' && s[b + 1] == '-' && s[b + 2] == ' ';
    assert eol >= b + 3;
  }

  /** What the matcher returns is the group of the match `re.search` makes from `c`. */
  lemma TestIdGroupMatches(s: string, c: nat) returns (a: nat, b: nat, e: nat)
    requires TestIdGroup(s, c).Some?
    ensures TestIdMatch(s, c, a, b, e) && TestIdGroup(s, c).value == s[b + 3..e]
  {
    a := IndexOf(s, "::", c).value;
    b := IndexOf(s, " - ", a + 2).value;
    e := LineEnd(s, b + 3);
  }

  /** The lazy and greedy choices leave one match from a given `c`. */
  lemma TestIdMatchUnique(s: string, c: int, a: int, b: int, e: int, a': int, b': int, e': int)
    requires TestIdMatch(s, c, a, b, e) && TestIdMatch(s, c, a', b', e')
    ensures a == a' && b == b' && e == e'
  {
  }

  lemma ShapeFound(s: string, q: nat, n: int, a: int, b: int)
    requires SummaryShape(s, q, n, a, b)
    ensures SummaryAt(s, q).Some?
  {
    FailedLineAtComplete(s, q, n);
    TestIdFound(s, n + 1 + |FailedPrefix|, a, b);
  }

  lemma SummaryAtMatches(s: string, q: nat) returns (n: nat, a: nat, b: nat, e: nat)
    requires SummaryAt(s, q).Some?
    ensures SummaryMatch(s, q, n, a, b, e) && SummaryAt(s, q).value == s[b + 3..e]
  {
    n := FailedLineAt(s, q).value;
    FailedLineAtSound(s, q);
    var c := n + 1 + |FailedPrefix|;
    SummaryAtIsGroup(s, q, n);
    a, b, e := TestIdGroupMatches(s, c);
    MatchOfParts(s, q, n, c, a, b, e);
  }

  lemma SummaryAtIsGroup(s: string, q: nat, n: nat)
    requires FailedLineAt(s, q) == Some(n)
    ensures SummaryAt(s, q) == TestIdGroup(s, n + 1 + |FailedPrefix|)
  {
  }

  lemma MatchOfParts(s: string, q: int, n: int, c: int, a: int, b: int, e: int)
    requires FailedLine(s, q, n) && c == n + 1 + |FailedPrefix| && TestIdMatch(s, c, a, b, e)
    ensures SummaryMatch(s, q, n, a, b, e)
  {
  }

  /** The matcher fails at `q` exactly when the pattern cannot match there. */
  lemma SummaryAtComplete(s: string, q: nat)
    ensures SummaryAt(s, q).None? <==> forall n, a, b :: !SummaryShape(s, q, n, a, b)
  {
    forall n, a, b | SummaryShape(s, q, n, a, b)
      ensures SummaryAt(s, q).Some?
    {
      ShapeFound(s, q, n, a, b);
    }
    if SummaryAt(s, q).Some? {
      var n, a, b, e := SummaryAtMatches(s, q);
      assert SummaryShape(s, q, n, a, b);
    }
  }

  /** From a given banner position the match is unique: the '=' run, the
      first "::", the first " - " and the line end are all determined. */
  lemma SummaryMatchUnique(s: string, q: int, n: int, a: int, b: int, e: int,
                           n': int, a': int, b': int, e': int)
    requires SummaryMatch(s, q, n, a, b, e) && SummaryMatch(s, q, n', a', b', e')
    ensures n == n' && a == a' && b == b' && e == e'
  {
    FailedLineAtComplete(s, q, n);
    FailedLineAtComplete(s, q, n');
    TestIdMatchUnique(s, n + 1 + |FailedPrefix|, a, b, e, a', b', e');
  }

  /** The result at the first position from `from` to `last` at which `f`
      succeeds: how `re.search` tries each start position in turn. */
  function FirstSome<T>(f: nat -> Option<T>, from: nat, last: nat): (r: Option<T>)
    decreases last + 1 - from
  {
    if from > last then None
    else if f(from).Some? then f(from)
    else FirstSome(f, from + 1, last)
  }

  /** A result of the search is the result at one of the positions tried. */
  lemma FirstSomeComesFrom<T>(f: nat -> Option<T>, from: nat, last: nat)
    ensures FirstSome(f, from, last).Some? ==>
      exists q :: from <= q <= last && f(q) == FirstSome(f, from, last)
  {
    if FirstSome(f, from, last).Some? {
      var q := FirstSomeFinds(f, from, last);
    }
  }

  lemma {:induction false} FirstSomeFinds<T>(f: nat -> Option<T>, from: nat, last: nat) returns (q: nat)
    requires FirstSome(f, from, last).Some?
    ensures from <= q <= last && f(q) == FirstSome(f, from, last)
    ensures forall p :: from <= p < q ==> f(p).None?
    decreases last + 1 - from
  {
    if f(from).Some? {
      q := from;
    } else {
      q := FirstSomeFinds(f, from + 1, last);
    }
  }

  lemma {:induction false} FirstSomeFails<T>(f: nat -> Option<T>, from: nat, last: nat, p: nat)
    requires FirstSome(f, from, last).None? && from <= p <= last
    ensures f(p).None?
    decreases last + 1 - from
  {
    if from < p {
      FirstSomeFails(f, from + 1, last, p);
    }
  }

  /** `re.search`, tried at each position where the banner may begin; the
      group of the match whose banner is furthest left. SearchFromStarts
      shows this is the group of the match that starts furthest left. */
  function SearchSummary(s: string): (r: Option<string>)
    ensures r.Some? ==> '\n' !in r.value
  {
    FirstSomeComesFrom(SummaryMatcher(s), 0, |s|);
    FirstSome(SummaryMatcher(s), 0, |s|)
  }

  /** The matcher of `s`, position by position. */
  function SummaryMatcher(s: string): nat -> Option<string>
  {
    (q: nat) => SummaryAt(s, q)
  }

  /** The matcher as `re.search` runs it from start position `p`: the leading
      `=*` takes the whole '=' run at `p`, since the banner after it begins
      with a space and no shorter run leaves one there. */
  function StartMatcher(s: string): nat -> Option<string>
  {
    (p: nat) => if p <= |s| then SummaryAt(s, EqualsRunEnd(s, p)) else None
  }

  /** A banner position where the pattern matches holds the banner's space. */
  lemma BannerStartsWithSpace(s: string, q: nat)
    requires SummaryAt(s, q).Some?
    ensures q < |s| && s[q] == ' '
  {
    FailedLineAtSound(s, q);
    BannerIsOneLine();
    assert s[q..q + |SummaryBanner|][0] == s[q];
  }

  /** The first success from `from` on is `v` when `g` gives `v` at `q` and
      nothing else before it. */
  lemma {:induction false} FirstSomeUpTo<T>(g: nat -> Option<T>, from: nat, q: nat, last: nat,
                                            v: Option<T>)
    requires from <= q <= last && g(q) == v && v.Some?
    requires forall p :: from <= p < q ==> g(p).None? || g(p) == v
    ensures FirstSome(g, from, last) == v
    decreases q - from
  {
    if g(from).None? {
      FirstSomeUpTo(g, from + 1, q, last, v);
    }
  }

  /** Where `g` fails everywhere, so does the search. */
  lemma {:induction false} FirstSomeNone<T>(g: nat -> Option<T>, from: nat, last: nat)
    requires forall p :: from <= p <= last ==> g(p).None?
    ensures FirstSome(g, from, last).None?
    decreases last + 1 - from
  {
    if from <= last {
      FirstSomeNone(g, from + 1, last);
    }
  }

  /** Trying `g` at each position finds what trying `f` finds, when `g` at
      `p` is `f` at some `h(p)` further on and `f` fails everywhere `h`
      skips over. */
  lemma FirstSomeVia<T>(f: nat -> Option<T>, g: nat -> Option<T>, h: nat -> nat, last: nat)
    requires forall p: nat :: p <= last ==> p <= h(p) <= last && g(p) == f(h(p))
    requires forall p: nat, r: nat :: p <= last && p <= r < h(p) ==> f(r).None?
    ensures FirstSome(g, 0, last) == FirstSome(f, 0, last)
  {
    if FirstSome(f, 0, last).Some? {
      var q := FirstSomeFinds(f, 0, last);
      forall p | 0 <= p < q
        ensures g(p).None? || g(p) == f(q)
      {
        assert !(p <= q < h(p) && p <= last);
      }
      FirstSomeUpTo(g, 0, q, last, f(q));
    } else {
      forall p | 0 <= p <= last
        ensures g(p).None?
      {
        FirstSomeFails(f, 0, last, h(p));
      }
      FirstSomeNone(g, 0, last);
    }
  }

  /** Where the banner search resumes from each start: the end of the '='
      run there. */
  function RunEnds(s: string): nat -> nat
  {
    (p: nat) => if p <= |s| then EqualsRunEnd(s, p) else p
  }

  /** Searching by start position, as `re.search` does, finds the same group
      as searching by banner position: a start inside a '=' run reaches the
      banner at the run's end, and no banner begins inside the run. */
  lemma SearchFromStarts(s: string)
    ensures FirstSome(StartMatcher(s), 0, |s|) == SearchSummary(s)
  {
    StartsReachRunEnds(s);
    NoBannersInRuns(s);
    FirstSomeVia(SummaryMatcher(s), StartMatcher(s), RunEnds(s), |s|);
  }

  /** Each start's match is the banner-position match at its run's end. */
  lemma StartsReachRunEnds(s: string)
    ensures forall p: nat :: p <= |s| ==>
              p <= RunEnds(s)(p) <= |s| && StartMatcher(s)(p) == SummaryMatcher(s)(RunEnds(s)(p))
  {
    forall p: nat | p <= |s|
      ensures p <= RunEnds(s)(p) <= |s| && StartMatcher(s)(p) == SummaryMatcher(s)(RunEnds(s)(p))
    {
      StartAtRunEnd(s, p);
    }
  }

  /** No banner-position match lies inside a '=' run. */
  lemma NoBannersInRuns(s: string)
    ensures forall p: nat, r: nat :: p <= |s| && p <= r < RunEnds(s)(p) ==> SummaryMatcher(s)(r).None?
  {
    forall p: nat, r: nat | p <= |s| && p <= r < RunEnds(s)(p)
      ensures SummaryMatcher(s)(r).None?
    {
      NoBannerInRun(s, p, r);
    }
  }

  /** One start reaches the banner position at the end of its '=' run. */
  lemma StartAtRunEnd(s: string, p: nat)
    requires p <= |s|
    ensures p <= RunEnds(s)(p) <= |s|
    ensures StartMatcher(s)(p) == SummaryMatcher(s)(RunEnds(s)(p))
  {
    assert RunEnds(s)(p) == EqualsRunEnd(s, p);
    assert StartMatcher(s)(p) == SummaryAt(s, EqualsRunEnd(s, p));
  }

  /** A position holding '=' is no banner position. */
  lemma NoBannerInRun(s: string, p: nat, r: nat)
    requires p <= |s| && p <= r < RunEnds(s)(p)
    ensures SummaryMatcher(s)(r).None?
  {
    assert RunEnds(s)(p) == EqualsRunEnd(s, p);
    assert s[r] == '=';
    if SummaryAt(s, r).Some? {
      BannerStartsWithSpace(s, r);
    }
  }

  /** The pattern matches somewhere in `s`. */
  ghost predicate SummaryFound(s: string)
  {
    exists q, n, a, b :: SummaryShape(s, q, n, a, b)
  }

  /** `get_summary`: the text after " - " on the first "FAILED" line of the
      short test summary, searched for after the colour codes are stripped;
      NoMatch where Python's `re.search` returns None and reading its group
      raises AttributeError. */
  function GetSummary(message: string): (r: Result<string>)
    ensures r.Err? ==> r.error == NoMatch
  {
    match SearchSummary(StripColourCodes(message))
    case None => Err(NoMatch)
    case Some(g) => Ok(g)
  }

  /** `get_summary` fails exactly when the pattern matches nowhere in the
      stripped output. */
  lemma GetSummaryFailsIffNoMatch(message: string)
    ensures GetSummary(message).Err? <==> !SummaryFound(StripColourCodes(message))
  {
    var s := StripColourCodes(message);
    if GetSummary(message).Err? {
      forall q, n, a, b | SummaryShape(s, q, n, a, b)
        ensures SummaryAt(s, q).None?
      {
        FirstSomeFails(SummaryMatcher(s), 0, |s|, q);
      }
      forall q: nat | SummaryAt(s, q).None?
        ensures forall n, a, b :: !SummaryShape(s, q, n, a, b)
      {
        SummaryAtComplete(s, q);
      }
    } else {
      var q := FirstSomeFinds(SummaryMatcher(s), 0, |s|);
      var n, a, b, e := SummaryAtMatches(s, q);
      assert SummaryShape(s, q, n, a, b);
    }
  }

  /** No match of the pattern has its banner before `q`. */
  ghost predicate NoSummaryBefore(s: string, q: int)
  {
    forall p, n, a, b :: p < q ==> !SummaryShape(s, p, n, a, b)
  }

  lemma NoShapeWhereMatcherFails(s: string, q: nat)
    requires forall p :: 0 <= p < q ==> SummaryMatcher(s)(p).None?
    ensures NoSummaryBefore(s, q)
  {
    forall p, n, a, b | 0 <= p < q
      ensures !SummaryShape(s, p, n, a, b)
    {
      assert SummaryMatcher(s)(p).None?;
      NoShapeAt(s, p);
    }
  }

  lemma NoShapeAt(s: string, p: nat)
    requires SummaryAt(s, p).None?
    ensures forall n, a, b :: !SummaryShape(s, p, n, a, b)
  {
    SummaryAtComplete(s, p);
  }

  /** When a match exists, the search returns the group of the leftmost one. */
  lemma SearchSummaryLeftmost(s: string) returns (q: nat, n: nat, a: nat, b: nat, e: nat)
    requires SearchSummary(s).Some?
    ensures SummaryMatch(s, q, n, a, b, e) && SearchSummary(s).value == s[b + 3..e]
    ensures NoSummaryBefore(s, q)
  {
    q := FirstSomeFinds(SummaryMatcher(s), 0, |s|);
    n, a, b, e := SummaryAtMatches(s, q);
    NoShapeWhereMatcherFails(s, q);
  }

  /** Wherever the pattern can match, the search succeeds. */
  lemma SearchSummaryFindsShape(s: string, q: int, n: int, a: int, b: int)
    requires SummaryShape(s, q, n, a, b)
    ensures SearchSummary(s).Some?
  {
    if SearchSummary(s).None? {
      FirstSomeFails(SummaryMatcher(s), 0, |s|, q);
      NoShapeAt(s, q);
    }
  }

  /** Each match is a shape of the pattern. */
  lemma MatchIsShape(s: string, q: int, n: int, a: int, b: int, e: int)
    requires SummaryMatch(s, q, n, a, b, e)
    ensures SummaryShape(s, q, n, a, b)
  {
  }

  /** The search returns the group of the leftmost match. */
  lemma SearchSummaryIsLeftmostGroup(s: string, q: int, n: int, a: int, b: int, e: int)
    requires SummaryMatch(s, q, n, a, b, e) && NoSummaryBefore(s, q)
    ensures SearchSummary(s) == Some(s[b + 3..e])
  {
    MatchIsShape(s, q, n, a, b, e);
    SearchSummaryFindsShape(s, q, n, a, b);
    var q0, n0, a0, b0, e0 := SearchSummaryLeftmost(s);
    LeftmostMatchUnique(s, q, n, a, b, e, q0, n0, a0, b0, e0);
  }

  /** When a match exists, `get_summary` returns the group of the leftmost one. */
  lemma GetSummaryLeftmost(message: string) returns (q: nat, n: nat, a: nat, b: nat, e: nat)
    requires GetSummary(message).Ok?
    ensures var s := StripColourCodes(message);
      SummaryMatch(s, q, n, a, b, e) && GetSummary(message).value == s[b + 3..e] &&
      NoSummaryBefore(s, q)
  {
    q, n, a, b, e := SearchSummaryLeftmost(StripColourCodes(message));
  }

  /** Conversely, the group of a leftmost match is what `get_summary` returns. */
  lemma GetSummaryIsLeftmostGroup(message: string, q: int, n: int, a: int, b: int, e: int)
    requires var s := StripColourCodes(message);
      SummaryMatch(s, q, n, a, b, e) && NoSummaryBefore(s, q)
    ensures GetSummary(message) == Ok(StripColourCodes(message)[b + 3..e])
  {
    SearchSummaryIsLeftmostGroup(StripColourCodes(message), q, n, a, b, e);
  }

  /** Wherever the pattern can match, `get_summary` succeeds. */
  lemma GetSummaryOkWhenShape(message: string, q: int, n: int, a: int, b: int)
    requires SummaryShape(StripColourCodes(message), q, n, a, b)
    ensures GetSummary(message).Ok?
  {
    SearchSummaryFindsShape(StripColourCodes(message), q, n, a, b);
  }

  /** There is only one leftmost match. */
  lemma LeftmostMatchUnique(s: string, q: int, n: int, a: int, b: int, e: int,
                            q': int, n': int, a': int, b': int, e': int)
    requires SummaryMatch(s, q, n, a, b, e) && NoSummaryBefore(s, q)
    requires SummaryMatch(s, q', n', a', b', e') && NoSummaryBefore(s, q')
    ensures q == q' && n == n' && a == a' && b == b' && e == e'
  {
    assert SummaryShape(s, q, n, a, b) && SummaryShape(s, q', n', a', b');
    SummaryMatchUnique(s, q, n, a, b, e, n', a', b', e');
  }

  /** The summary is a single line of the output: the group stops at the
      first newline. */
  lemma GetSummaryIsOneLine(message: string)
    ensures GetSummary(message).Ok? ==> '\n' !in GetSummary(message).value
  {
    if GetSummary(message).Ok? {
      var s := StripColourCodes(message);
      var q, n, a, b, e := GetSummaryLeftmost(message);
      forall k | 0 <= k < e - (b + 3)
        ensures GetSummary(message).value[k] != '\n'
      {
        assert GetSummary(message).value[k] == s[b + 3 + k];
      }
    }
  }

  /** `w` occurs in `u + w + v` right after `u`, and `v` follows it. */
  lemma PieceAt(u: string, w: string, v: string)
    ensures OccursAt(u + w + v, w, |u|) && (u + w + v)[|u| + |w|..] == v
  {
    assert (u + w + v)[|u|..|u| + |w|] == w;
    assert (u + w + v)[|u| + |w|..] == v;
  }

  /** `pat` cannot start at `k` if its `j`-th character is not found there. */
  lemma MismatchAt(s: string, k: nat, pat: string, j: nat)
    requires j < |pat| && (k + j < |s| ==> s[k + j] != pat[j])
    ensures !OccursAt(s, pat, k)
  {
    if k + |pat| <= |s| {
      assert s[k..k + |pat|][j] == s[k + j];
    }
  }

  /** No banner before `q` means no match before `q`. */
  lemma NoBannerNoSummary(s: string, q: int)
    requires forall p :: 0 <= p < q ==> !OccursAt(s, SummaryBanner, p)
    ensures NoSummaryBefore(s, q)
  {
  }

  /** No banner starts inside a text that holds none and ends its last
      line, nor in the '=' padding after it. */
  lemma NoBannerBefore(s: string, pre: string, left: string, rest: string)
    requires s == (pre + left) + (SummaryBanner + rest)
    requires forall p :: !OccursAt(pre, SummaryBanner, p)
    requires pre == [] || pre[|pre| - 1] == '\n'
    requires forall k :: 0 <= k < |left| ==> left[k] == '='
    ensures NoSummaryBefore(s, |pre| + |left|)
  {
    BannerIsOneLine();
    forall p | 0 <= p < |pre| + |left|
      ensures !OccursAt(s, SummaryBanner, p)
    {
      if p >= |pre| {
        assert s[p] == left[p - |pre|];
        MismatchAt(s, p, SummaryBanner, 0);
      } else if p + |SummaryBanner| <= |pre| {
        assert s[p..p + |SummaryBanner|] == pre[p..p + |SummaryBanner|];
        assert !OccursAt(pre, SummaryBanner, p);
      } else {
        assert s[|pre| - 1] == '\n';
        MismatchAt(s, p, SummaryBanner, |pre| - 1 - p);
      }
    }
    NoBannerNoSummary(s, |pre| + |left|);
  }

  /** The banner holds no newline and begins with a space. */
  lemma BannerIsOneLine()
    ensures forall k :: 0 <= k < |SummaryBanner| ==> SummaryBanner[k] != '\n'
    ensures SummaryBanner[0] == ' '
  {
  }

  /** The banner line, padded with '=' on its right, followed by "FAILED ";
      `c` is where the test id starts. */
  lemma BannerLineOf(s: string, left: string, right: string, rest: string) returns (n: nat, c: nat)
    requires s == left + SummaryBanner + right + "\n" + FailedPrefix + rest
    requires forall k :: 0 <= k < |right| ==> right[k] == '='
    ensures FailedLine(s, |left|, n) && c == n + 1 + |FailedPrefix|
    ensures c == |left| + |SummaryBanner| + |right| + 1 + |FailedPrefix|
  {
    var q := |left|;
    n := q + |SummaryBanner| + |right|;
    c := n + 1 + |FailedPrefix|;
    assert OccursAt(s, SummaryBanner, q) by {
      assert s == left + SummaryBanner + (right + "\n" + FailedPrefix + rest);
      PieceAt(left, SummaryBanner, right + "\n" + FailedPrefix + rest);
    }
    assert forall k :: q + |SummaryBanner| <= k < n ==> s[k] == '=' by {
      CharsAt(s, left + SummaryBanner, right, "\n" + FailedPrefix + rest);
    }
    assert s[n] == '\n' by {
      assert s == left + SummaryBanner + right + "\n" + (FailedPrefix + rest);
    }
    assert OccursAt(s, FailedPrefix, n + 1) by {
      PieceAt(left + SummaryBanner + right + "\n", FailedPrefix, rest);
    }
  }

  /** The characters of `w` in `u + w + v`. */
  lemma CharsAt(s: string, u: string, w: string, v: string)
    requires s == u + w + v
    ensures forall k :: |u| <= k < |u| + |w| ==> s[k] == w[k - |u|]
  {
  }

  /** Where two separators and the text after them sit in
      `pre + f + d2 + t + d3 + m + tl`. */
  lemma SeparatorsAt(s: string, pre: string, f: string, d2: string, t: string, d3: string,
                     m: string, tl: string)
    requires s == pre + f + d2 + t + d3 + m + tl
    ensures var b := |pre| + |f| + |d2| + |t|;
      OccursAt(s, d2, |pre| + |f|) && OccursAt(s, d3, b) &&
      s[b + |d3|..b + |d3| + |m|] == m && s[b + |d3| + |m|..] == tl
  {
    Regroup7(pre, f, d2, t, d3, m, tl);
    PieceAt(pre + f, d2, t + d3 + m + tl);
    PieceAt(pre + f + d2 + t, d3, m + tl);
    PieceAt(pre + f + d2 + t + d3, m, tl);
  }

  lemma Regroup7(a: string, b: string, c: string, d: string, e: string, f: string, g: string)
    ensures a + b + c + d + e + f + g == (a + b) + c + (d + e + f + g)
    ensures a + b + c + d + e + f + g == (a + b + c + d) + e + (f + g)
  {
  }

  /** Where the separators and the message of "<file>::<test> - <msg>" sit. */
  lemma TestIdPieces(s: string, pre: string, file: string, test: string, msg: string, tail: string)
    requires s == pre + file + "::" + test + " - " + msg + tail
    requires tail == [] || tail[0] == '\n'
    ensures var b := |pre| + |file| + 2 + |test|;
      OccursAt(s, "::", |pre| + |file|) && OccursAt(s, " - ", b) && s[b] == ' ' &&
      s[b + 3..b + 3 + |msg|] == msg && (b + 3 + |msg| == |s| || s[b + 3 + |msg|] == '\n')
  {
    var b := |pre| + |file| + 2 + |test|;
    SeparatorsAt(s, pre, file, "::", test, " - ", msg, tail);
    assert s[b] == s[b..b + 3][0];
    if tail != [] {
      assert s[b + 3 + |msg|] == s[b + 3 + |msg|..][0];
    }
  }

  /** Neither the file name nor the test name leaves the line, and the
      separators after them are the first ones. */
  lemma TestIdNames(s: string, pre: string, file: string, test: string, msg: string, tail: string)
    requires s == pre + file + "::" + test + " - " + msg + tail
    requires ':' !in file && '\n' !in file && '-' !in test && '\n' !in test
    requires s[|pre| + |file| + 2 + |test|] == ' '
    ensures var a := |pre| + |file|;
      var b := a + 2 + |test|;
      LineFree(s, |pre|, a) && LineFree(s, a + 2, b) &&
      (forall k :: |pre| <= k < a ==> !OccursAt(s, "::", k)) &&
      (forall k :: a + 2 <= k < b ==> !OccursAt(s, " - ", k))
  {
    var c := |pre|;
    var a := c + |file|;
    var b := a + 2 + |test|;
    CharsAt(s, pre, file, "::" + test + " - " + msg + tail);
    CharsAt(s, pre + file + "::", test, " - " + msg + tail);
    forall k | c <= k < a
      ensures !OccursAt(s, "::", k)
    {
      MismatchAt(s, k, "::", 0);
    }
    forall k | a + 2 <= k < b
      ensures !OccursAt(s, " - ", k)
    {
      MismatchAt(s, k, " - ", 1);
    }
  }

  /** The rest of a summary line, "<file>::<test> - <msg>", read after `pre`. */
  lemma TestIdOf(s: string, pre: string, file: string, test: string, msg: string, tail: string)
    returns (a: nat, b: nat, e: nat)
    requires s == pre + file + "::" + test + " - " + msg + tail
    requires ':' !in file && '\n' !in file && '-' !in test && '\n' !in test && '\n' !in msg
    requires tail == [] || tail[0] == '\n'
    ensures TestIdMatch(s, |pre|, a, b, e) && s[b + 3..e] == msg
  {
    a := |pre| + |file|;
    b := a + 2 + |test|;
    e := b + 3 + |msg|;
    TestIdPieces(s, pre, file, test, msg, tail);
    TestIdNames(s, pre, file, test, msg, tail);
    forall k | b + 3 <= k < e
      ensures s[k] != '\n'
    {
      assert s[k] == s[b + 3..e][k - b - 3];
    }
  }

  /** The ways the pieces of a summary text are grouped. */
  lemma Regroup(l: string, sb: string, r: string, nl: string, fp: string, f: string, d2: string,
                t: string, d3: string, m: string, tl: string)
    ensures var line := nl + fp + f + d2 + t + d3 + m + tl;
      var rest := f + d2 + t + d3 + m + tl;
      l + sb + r + line == l + (sb + (r + line)) &&
      l + sb + r + line == l + sb + r + nl + fp + rest &&
      l + sb + r + line == (l + sb + r + nl + fp) + f + d2 + t + d3 + m + tl
  {
  }

  /** The leftmost match in a text holding a failed test's summary line
      below a banner, after any text that holds no banner and ends its last
      line. */
  lemma FailedLineMatch(s: string, pre: string, left: string, right: string, line: string,
                        file: string, test: string, msg: string, tail: string)
    returns (n: nat, a: nat, b: nat, e: nat)
    requires s == pre + left + SummaryBanner + right + line
    requires line == "\n" + FailedPrefix + file + "::" + test + " - " + msg + tail
    requires forall p :: !OccursAt(pre, SummaryBanner, p)
    requires pre == [] || pre[|pre| - 1] == '\n'
    requires forall k :: 0 <= k < |left| ==> left[k] == '='
    requires forall k :: 0 <= k < |right| ==> right[k] == '='
    requires ':' !in file && '\n' !in file && '-' !in test && '\n' !in test && '\n' !in msg
    requires tail == [] || tail[0] == '\n'
    ensures SummaryMatch(s, |pre| + |left|, n, a, b, e) && NoSummaryBefore(s, |pre| + |left|)
    ensures s[b + 3..e] == msg
  {
    var pl := pre + left;
    var rest := file + "::" + test + " - " + msg + tail;
    var head := pl + SummaryBanner + right + "\n" + FailedPrefix;
    Regroup(pl, SummaryBanner, right, "\n", FailedPrefix, file, "::", test, " - ", msg, tail);
    NoBannerBefore(s, pre, left, right + line);
    var c;
    n, c := BannerLineOf(s, pl, right, rest);
    a, b, e := TestIdOf(s, head, file, test, msg, tail);
  }

  /** The summary line pytest writes for a failed test, below a banner
      padded with '=' runs of any length and after any text that holds no
      banner and ends its last line: `get_summary` returns the message after
      " - ", provided the file name holds no ':' and the test name no '-'
      (so that the first "::" and the first " - " are the separators), and
      nothing but the message is on its line. */
  lemma SummaryOfFailedLine(message: string, pre: string, left: string, right: string,
                            line: string, file: string, test: string, msg: string, tail: string)
    requires StripColourCodes(message) == pre + left + SummaryBanner + right + line
    requires line == "\n" + FailedPrefix + file + "::" + test + " - " + msg + tail
    requires forall p :: !OccursAt(pre, SummaryBanner, p)
    requires pre == [] || pre[|pre| - 1] == '\n'
    requires forall k :: 0 <= k < |left| ==> left[k] == '='
    requires forall k :: 0 <= k < |right| ==> right[k] == '='
    requires ':' !in file && '\n' !in file && '-' !in test && '\n' !in test && '\n' !in msg
    requires tail == [] || tail[0] == '\n'
    ensures GetSummary(message) == Ok(msg)
  {
    var n, a, b, e := FailedLineMatch(StripColourCodes(message), pre, left, right, line,
                                      file, test, msg, tail);
    GetSummaryIsLeftmostGroup(message, |pre| + |left|, n, a, b, e);
  }

  /** Stripping a banner whose '=' padding is wrapped in colour codes keeps
      the text before it, the padded banner and what follows. */
  lemma StripColouredBanner(message: string, pre: string, c1: string, left: string,
                            right: string, c2: string, line: string)
    requires IsColourCode(c1) && IsColourCode(c2) && Esc !in pre && Esc !in line
    requires forall k :: 0 <= k < |left| ==> left[k] == '='
    requires forall k :: 0 <= k < |right| ==> right[k] == '='
    requires message == pre + c1 + left + SummaryBanner + right + c2 + line
    ensures StripColourCodes(message) == pre + left + SummaryBanner + right + line
  {
    var txt := left + SummaryBanner + right;
    assert Esc !in SummaryBanner;
    PaddingHasNoEsc(left);
    PaddingHasNoEsc(right);
    RegroupColoured(pre, c1, left, SummaryBanner, right, c2, line);
    StripPlainPrefix(pre, c1 + txt + c2 + line);
    StripCodeTextCode(c1, txt, c2, line);
  }

  lemma PaddingHasNoEsc(pad: string)
    requires forall k :: 0 <= k < |pad| ==> pad[k] == '='
    ensures Esc !in pad
  {
  }

  lemma RegroupColoured(pre: string, c1: string, l: string, sb: string, r: string, c2: string,
                        line: string)
    ensures pre + c1 + l + sb + r + c2 + line == pre + (c1 + (l + sb + r) + c2 + line)
    ensures pre + l + sb + r + line == pre + ((l + sb + r) + line)
  {
  }

  /** Colour codes around the banner's '=' padding do not change the summary,
      whatever colour codes come before the banner and whatever lines come
      after the line of the failed test. */
  lemma SummaryOfColouredBanner(message: string, pre: string, c1: string, left: string,
                                right: string, c2: string, line: string, rest: string,
                                file: string, test: string, msg: string)
    requires IsColourCode(c1) && IsColourCode(c2)
    requires forall p :: !OccursAt(StripColourCodes(pre), SummaryBanner, p)
    requires pre == [] || pre[|pre| - 1] == '\n'
    requires forall k :: 0 <= k < |left| ==> left[k] == '='
    requires forall k :: 0 <= k < |right| ==> right[k] == '='
    requires message == pre + c1 + left + SummaryBanner + right + c2 + line + rest
    requires line == "\n" + FailedPrefix + file + "::" + test + " - " + msg
    requires rest == [] || rest[0] == '\n'
    requires ':' !in file && '\n' !in file && '-' !in test && '\n' !in test && '\n' !in msg
    requires Esc !in file && Esc !in test && Esc !in msg
    ensures GetSummary(message) == Ok(msg)
  {
    var txt := left + SummaryBanner + right;
    var tail := StripColourCodes(rest);
    BannerHasNoEsc(left, right);
    FailedLineHasNoEsc(line, file, test, msg);
    RegroupColouredLines(pre, c1, left, SummaryBanner, right, c2, line, rest, tail);
    StripAroundLine(pre, c1, txt, c2, line, rest);
    StripEndsLine(pre);
    SummaryOfFailedLine(message, StripColourCodes(pre), left, right, line + tail,
                        file, test, msg, tail);
  }

  lemma BannerHasNoEsc(left: string, right: string)
    requires forall k :: 0 <= k < |left| ==> left[k] == '='
    requires forall k :: 0 <= k < |right| ==> right[k] == '='
    ensures Esc !in left + SummaryBanner + right
  {
    assert Esc !in SummaryBanner;
    PaddingHasNoEsc(left);
    PaddingHasNoEsc(right);
  }

  lemma FailedLineHasNoEsc(line: string, file: string, test: string, msg: string)
    requires line == "\n" + FailedPrefix + file + "::" + test + " - " + msg
    requires Esc !in file && Esc !in test && Esc !in msg
    ensures Esc !in line
  {
    assert Esc !in FailedPrefix;
  }

  /** Colour codes around ESC-free text on a line of its own are removed,
      and the lines before and after strip separately. */
  lemma StripAroundLine(pre: string, c1: string, txt: string, c2: string, line: string,
                        rest: string)
    requires IsColourCode(c1) && IsColourCode(c2) && Esc !in txt && Esc !in line
    requires pre == [] || pre[|pre| - 1] == '\n'
    requires rest == [] || rest[0] == '\n'
    ensures StripColourCodes(pre + ((c1 + txt + c2 + line) + rest)) ==
            StripColourCodes(pre) + ((txt + line) + StripColourCodes(rest))
    ensures var tail := StripColourCodes(rest); tail == [] || tail[0] == '\n'
  {
    var mid := c1 + txt + c2 + line;
    StripCodeTextCode(c1, txt, c2, line);
    if rest == [] {
      assert mid + rest == mid;
      assert (txt + line) + [] == txt + line;
    } else {
      StripSplitsAtNewline(mid, rest);
      StripStartsLine(rest);
    }
    StripSplitsAtNewline(pre, mid + rest);
  }

  /** Stripped text still starts a new line. */
  lemma StripStartsLine(s: string)
    requires s != [] && s[0] == '\n'
    ensures var r := StripColourCodes(s); r != [] && r[0] == '\n'
  {
    StripKeepsHead(s);
  }

  /** Stripped text still ends its last line. */
  lemma StripEndsLine(s: string)
    requires s == [] || s[|s| - 1] == '\n'
    ensures var r := StripColourCodes(s); r == [] || r[|r| - 1] == '\n'
  {
    if s != [] {
      var init := s[..|s| - 1];
      assert s == init + "\n";
      StripSplitsAtNewline(init, "\n");
    }
  }

  lemma RegroupColouredLines(pre: string, c1: string, l: string, sb: string, r: string,
                             c2: string, line: string, rest: string, tail: string)
    ensures pre + c1 + l + sb + r + c2 + line + rest ==
            pre + ((c1 + (l + sb + r) + c2 + line) + rest)
    ensures forall x :: x + (((l + sb + r) + line) + tail) == x + l + sb + r + (line + tail)
  {
  }

  /** A red banner above the line of a failed test, as pytest colours it:
      the summary is the assertion message after " - ". */
  lemma GetSummaryExample(message: string, red: string, reset: string, pad: string,
                          line: string, msg: string)
    requires red == Sgr("31") && reset == Sgr("0") && pad == "=====" && msg == "AssertionError: boom"
    requires message == red + pad + SummaryBanner + pad + reset + line + "\n"
    requires line == "\n" + FailedPrefix + "tests/x.py" + "::" + "test_y" + " - " + msg
    ensures GetSummary(message) == Ok(msg)
  {
    DigitsAreParamList("31");
    DigitsAreParamList("0");
    SgrIsColourCode("31");
    SgrIsColourCode("0");
    ExampleNames("tests/x.py", "test_y", msg, pad);
    assert message == [] + red + pad + SummaryBanner + pad + reset + line + "\n";
    SummaryOfColouredBanner(message, [], red, pad, pad, reset, line, "\n",
                            "tests/x.py", "test_y", msg);
  }

  lemma ExampleNames(file: string, test: string, msg: string, pad: string)
    requires file == "tests/x.py" && test == "test_y" && msg == "AssertionError: boom"
    requires pad == "====="
    ensures ':' !in file && '\n' !in file && '-' !in test && '\n' !in test && '\n' !in msg
    ensures Esc !in file && Esc !in test && Esc !in msg
    ensures forall k :: 0 <= k < |pad| ==> pad[k] == '='
  {
  }
}
