/** src/lib/post-content.ts: the post body normaliser, the image-URL
    extractor and the preview-image choice.

    Each regular expression of the source is a hand-written recogniser. The
    source's patterns only put `\s*`, `[^\]]*` or `[^\s)]+` in front of a
    character those classes cannot match, so greedy matching with
    backtracking always settles on the maximal run; the recognisers below
    take that run directly (`SkipSpace`, `Find`, `UrlRunEnd`). A global
    `replace` scans left to right, resumes after each match and moves one
    character on after a failed attempt; the repair functions recurse on
    the remaining suffix in the same way. */
module PostContent {
  import opened Wrappers
  import opened JsText
  import opened Collections

  /** The alt text given to a bare image URL line. */
  const DefaultAlt := "文章圖片"

  // ---------------------------------------------------------------------
  // Character classes and erasure

  predicate IsCr(c: char) { c == '\r' }

  /** `['’]` */
  predicate IsQuote(c: char) { c == '\'' || c == '’' }

  predicate IsSpaceOrQuote(c: char) { IsSpace(c) || IsQuote(c) }

  // ---------------------------------------------------------------------
  // Scanners shared by the recognisers

  /** The first index at or after `i` that is not whitespace (`\s*` taken
      greedily); `SkipSpaceSpan` says the characters skipped are whitespace. */
  function SkipSpace(s: string, i: nat): (j: nat)
    requires i <= |s|
    ensures i <= j <= |s|
    ensures j < |s| ==> !IsSpace(s[j])
    decreases |s| - i
  {
    if i < |s| && IsSpace(s[i]) then SkipSpace(s, i + 1) else i
  }

  /** The first index at or after `i` holding `c`, or `|s|`. */
  function Find(s: string, i: nat, c: char): (j: nat)
    requires i <= |s|
    ensures i <= j <= |s|
    ensures j < |s| ==> s[j] == c
    decreases |s| - i
  {
    if i < |s| && s[i] != c then Find(s, i + 1, c) else i
  }

  /** The end of the maximal run of characters that are neither whitespace
      nor `)`, starting at `i` (`[^\s)]`). */
  function UrlRunEnd(s: string, i: nat): (j: nat)
    requires i <= |s|
    ensures i <= j <= |s|
    ensures j < |s| ==> IsSpace(s[j]) || s[j] == ')'
    decreases |s| - i
  {
    if i < |s| && !IsSpace(s[i]) && s[i] != ')' then UrlRunEnd(s, i + 1) else i
  }

  lemma {:induction false} SkipSpaceSpan(s: string, i: nat)
    requires i <= |s|
    ensures AllSpace(s[i..SkipSpace(s, i)])
    decreases |s| - i
  {
    if i < |s| && IsSpace(s[i]) {
      var j := SkipSpace(s, i + 1);
      SkipSpaceSpan(s, i + 1);
      assert s[i..j] == [s[i]] + s[i + 1..j];
    }
  }

  lemma {:induction false} FindSpan(s: string, i: nat, c: char)
    requires i <= |s|
    ensures c !in s[i..Find(s, i, c)]
    decreases |s| - i
  {
    if i < |s| && s[i] != c {
      var j := Find(s, i + 1, c);
      FindSpan(s, i + 1, c);
      assert s[i..j] == [s[i]] + s[i + 1..j];
    }
  }

  lemma {:induction false} UrlRunSpan(s: string, i: nat)
    requires i <= |s|
    ensures NoSpace(s[i..UrlRunEnd(s, i)]) && ')' !in s[i..UrlRunEnd(s, i)]
    decreases |s| - i
  {
    if i < |s| && !IsSpace(s[i]) && s[i] != ')' {
      var j := UrlRunEnd(s, i + 1);
      UrlRunSpan(s, i + 1);
      assert s[i..j] == [s[i]] + s[i + 1..j];
    }
  }

  lemma {:induction false} SkipSpaceIs(s: string, i: nat, j: nat)
    requires i <= j <= |s| && AllSpace(s[i..j]) && (j < |s| ==> !IsSpace(s[j]))
    ensures SkipSpace(s, i) == j
    decreases j - i
  {
    if i < j {
      assert IsSpace(s[i..j][0]);
      assert s[i + 1..j] == s[i..j][1..];
      SkipSpaceIs(s, i + 1, j);
    }
  }

  lemma {:induction false} FindIs(s: string, i: nat, c: char, j: nat)
    requires i <= j < |s| && c !in s[i..j] && s[j] == c
    ensures Find(s, i, c) == j
    decreases j - i
  {
    if i < j {
      assert s[i..j][0] == s[i];
      assert s[i + 1..j] == s[i..j][1..];
      FindIs(s, i + 1, c, j);
    }
  }

  lemma {:induction false} UrlRunEndIs(s: string, i: nat, j: nat)
    requires i <= j < |s| && NoSpace(s[i..j]) && ')' !in s[i..j] && s[j] == ')'
    ensures UrlRunEnd(s, i) == j
    decreases j - i
  {
    if i < j {
      assert s[i..j][0] == s[i];
      assert s[i + 1..j] == s[i..j][1..];
      UrlRunEndIs(s, i + 1, j);
    }
  }

  // ---------------------------------------------------------------------
  // Step 1: `.replace(/\r\n/g, "\n")`

  function UnifyCrlf(s: string): (r: string)
    ensures |r| <= |s|
  {
    if |s| >= 2 && s[0] == '\r' && s[1] == '\n' then "\n" + UnifyCrlf(s[2..])
    else if s == [] then []
    else [s[0]] + UnifyCrlf(s[1..])
  }

  /** Every carriage return is the first half of a CRLF pair. */
  predicate CrOnlyInCrlf(s: string) {
    forall i :: 0 <= i < |s| && s[i] == '\r' ==> i + 1 < |s| && s[i + 1] == '\n'
  }

  /** Step 1 removes carriage returns and nothing else, and adds nothing. */
  lemma {:induction false} UnifyCrlfRemovesOnlyCr(s: string)
    ensures Erase(UnifyCrlf(s), IsCr) == Erase(s, IsCr)
    ensures multiset(UnifyCrlf(s)) <= multiset(s)
  {
    if s != [] {
      var pair := |s| >= 2 && s[0] == '\r' && s[1] == '\n';
      var next := if pair then 2 else 1;
      var emit := if pair then "\n" else [s[0]];
      UnifyCrlfUnfold(s);
      UnifyCrlfRemovesOnlyCr(s[next..]);
      if pair {
        assert s[..2] == "\r\n";
        CrlfErase();
      } else {
        assert s[..1] == emit;
      }
      EraseGlue(s, next, emit, UnifyCrlf(s[next..]), IsCr);
      MultisetGlue(s, next, emit, UnifyCrlf(s[next..]));
    }
  }

  lemma UnifyCrlfUnfold(s: string)
    requires s != []
    ensures var pair := |s| >= 2 && s[0] == '\r' && s[1] == '\n';
            UnifyCrlf(s) == (if pair then "\n" else [s[0]]) + UnifyCrlf(s[if pair then 2 else 1..])
  {
  }

  lemma CrlfErase()
    ensures Erase("\n", IsCr) == Erase("\r\n", IsCr)
    ensures multiset("\n") <= multiset("\r\n")
  {
    EraseCons('\r', "\n", IsCr);
    EraseCons('\n', [], IsCr);
  }

  /** Text whose line breaks are all CRLF comes out of step 1 without any
      carriage return. */
  lemma {:induction false} UnifyCrlfNoCr(s: string)
    requires CrOnlyInCrlf(s)
    ensures '\r' !in UnifyCrlf(s)
  {
    if |s| >= 2 && s[0] == '\r' && s[1] == '\n' {
      assert CrOnlyInCrlf(s[2..]) by {
        forall i | 0 <= i < |s[2..]| && s[2..][i] == '\r' ensures i + 1 < |s[2..]| && s[2..][i + 1] == '\n' {
          assert s[i + 2] == '\r';
        }
      }
      UnifyCrlfNoCr(s[2..]);
    } else if s != [] {
      assert s[0] != '\r';
      assert CrOnlyInCrlf(s[1..]) by {
        forall i | 0 <= i < |s[1..]| && s[1..][i] == '\r' ensures i + 1 < |s[1..]| && s[1..][i + 1] == '\n' {
          assert s[i + 1] == '\r';
        }
      }
      UnifyCrlfNoCr(s[1..]);
    }
  }

  // ---------------------------------------------------------------------
  // Step 2: `.replace(/(^|\n)\s*['’]\s*(?=!\[[^\]]*\]\s*\n?\s*\()/g, "$1")`

  /** The lookahead `!\[[^\]]*\]\s*\n?\s*\(` at index `k`: an image tag
      opens there and its `(` follows the `]` after optional whitespace. */
  predicate ImageOpensAt(s: string, k: nat)
    requires k <= |s|
  {
    if k + 1 < |s| && s[k] == '!' && s[k + 1] == '[' then
      var bracket := Find(s, k + 2, ']');
      if bracket < |s| then
        var paren := SkipSpace(s, bracket + 1);
        paren < |s| && s[paren] == '('
      else false
    else false
  }

  /** `\s*['’]\s*` followed by the lookahead, from index `i`: the index where
      the match ends (the `!` of the image tag). */
  function QuoteMatch(s: string, i: nat): (r: Option<nat>)
    requires i <= |s|
    ensures r.Some? ==> i < r.value < |s|
  {
    var q := SkipSpace(s, i);
    if q < |s| && IsQuote(s[q]) then
      var k := SkipSpace(s, q + 1);
      if ImageOpensAt(s, k) then Some(k) else None
    else None
  }

  /** One attempt of the step-2 scan at the front of `s`: the text it emits
      and the index where the scan resumes. `atStart` is true only at index
      0 of the whole text, where `^` can match; elsewhere the match must
      begin with the `\n` it keeps. */
  function StripNext(s: string, atStart: bool): (r: (string, nat))
    requires s != []
    ensures 0 < r.1 <= |s| && |r.0| <= r.1
  {
    if atStart && QuoteMatch(s, 0).Some? then ([], QuoteMatch(s, 0).value)
    else if s[0] == '\n' && QuoteMatch(s, 1).Some? then ("\n", QuoteMatch(s, 1).value)
    else ([s[0]], 1)
  }

  /** The replace loop of step 2. */
  function StripFrom(s: string, atStart: bool): (r: string)
    ensures |r| <= |s|
    decreases |s|
  {
    if s == [] then []
    else
      var step := StripNext(s, atStart);
      step.0 + StripFrom(s[step.1..], false)
  }

  /** Repair 1: a quote or apostrophe left on its own before an image tag,
      at the start of the text or of a line, is deleted together with the
      whitespace around it. Text without any quote character is unchanged. */
  function StripStrayQuotes(s: string): (r: string)
    ensures |r| <= |s|
    ensures (forall i :: 0 <= i < |s| ==> !IsQuote(s[i])) ==> r == s
  {
    if forall i :: 0 <= i < |s| ==> !IsQuote(s[i]) then StripFromNoQuote(s, true); StripFrom(s, true)
    else StripFrom(s, true)
  }

  lemma {:induction false} StripFromNoQuote(s: string, atStart: bool)
    requires forall i :: 0 <= i < |s| ==> !IsQuote(s[i])
    ensures StripFrom(s, atStart) == s
    decreases |s|
  {
    if s != [] {
      StripNextNoQuote(s, atStart);
      NoQuoteTail(s);
      StripFromNoQuote(s[1..], false);
      ConsTail(s, StripFrom(s[1..], false));
    }
  }

  /** Without a quote character the scan emits one character at a time. */
  lemma StripNextNoQuote(s: string, atStart: bool)
    requires s != [] && forall i :: 0 <= i < |s| ==> !IsQuote(s[i])
    ensures StripNext(s, atStart) == ([s[0]], 1)
  {
    var q0 := SkipSpace(s, 0);
    if q0 < |s| { assert !IsQuote(s[q0]); }
    var q1 := SkipSpace(s, 1);
    if q1 < |s| { assert !IsQuote(s[q1]); }
  }

  lemma NoQuoteTail(s: string)
    requires s != [] && forall i :: 0 <= i < |s| ==> !IsQuote(s[i])
    ensures forall i :: 0 <= i < |s[1..]| ==> !IsQuote(s[1..][i])
  {
    forall i | 0 <= i < |s[1..]| ensures !IsQuote(s[1..][i]) { assert s[1..][i] == s[i + 1]; }
  }

  lemma ConsTail(s: string, t: string)
    requires s != [] && t == s[1..]
    ensures [s[0]] + t == s
  {
  }

  /** The characters a step-2 match deletes are whitespace and one quote. */
  lemma QuoteMatchDeletes(s: string, i: nat)
    requires i <= |s| && QuoteMatch(s, i).Some?
    ensures forall j :: i <= j < QuoteMatch(s, i).value ==> IsSpaceOrQuote(s[j])
    ensures Erase(s[i..QuoteMatch(s, i).value], IsSpaceOrQuote) == []
  {
    var q := SkipSpace(s, i);
    var k := QuoteMatch(s, i).value;
    SkipSpaceSpan(s, i);
    SkipSpaceSpan(s, q + 1);
    forall j | i <= j < k ensures IsSpaceOrQuote(s[j]) {
      if j < q { assert s[i..q][j - i] == s[j]; }
      else if q < j { assert s[q + 1..k][j - q - 1] == s[j]; }
    }
    EraseAllDropped(s[i..k], IsSpaceOrQuote);
  }

  /** One attempt deletes only whitespace and quote characters, and adds
      nothing. */
  lemma StripNextDeletes(s: string, atStart: bool)
    requires s != []
    ensures var (emit, next) := StripNext(s, atStart);
            && Erase(emit, IsSpaceOrQuote) == Erase(s[..next], IsSpaceOrQuote)
            && multiset(emit) <= multiset(s[..next])
  {
    if atStart && QuoteMatch(s, 0).Some? {
      QuoteMatchDeletes(s, 0);
      assert s[0..QuoteMatch(s, 0).value] == s[..QuoteMatch(s, 0).value];
    } else if s[0] == '\n' && QuoteMatch(s, 1).Some? {
      QuoteMatchDeletes(s, 1);
      NewlineKeptRestDeleted(s, QuoteMatch(s, 1).value);
    } else {
      assert s[..1] == [s[0]];
    }
  }

  lemma NewlineKeptRestDeleted(s: string, next: nat)
    requires 1 <= next <= |s| && s[0] == '\n' && Erase(s[1..next], IsSpaceOrQuote) == []
    ensures Erase("\n", IsSpaceOrQuote) == Erase(s[..next], IsSpaceOrQuote)
    ensures multiset("\n") <= multiset(s[..next])
  {
    assert s[..next] == [s[0]] + s[1..next];
    EraseCons('\n', s[1..next], IsSpaceOrQuote);
    EraseCons('\n', [], IsSpaceOrQuote);
  }

  /** Step 2 deletes only whitespace and quote characters: with those
      erased, input and output are the same text. */
  lemma {:induction false} StripFromDeletesOnly(s: string, atStart: bool)
    ensures Erase(StripFrom(s, atStart), IsSpaceOrQuote) == Erase(s, IsSpaceOrQuote)
    decreases |s|
  {
    if s != [] {
      var step := StripNext(s, atStart);
      StripNextDeletes(s, atStart);
      StripFromDeletesOnly(s[step.1..], false);
      EraseGlue(s, step.1, step.0, StripFrom(s[step.1..], false), IsSpaceOrQuote);
    }
  }

  /** Step 2 adds no character. */
  lemma {:induction false} StripFromAddsNothing(s: string, atStart: bool)
    ensures multiset(StripFrom(s, atStart)) <= multiset(s)
    decreases |s|
  {
    if s != [] {
      var step := StripNext(s, atStart);
      StripNextDeletes(s, atStart);
      StripFromAddsNothing(s[step.1..], false);
      MultisetGlue(s, step.1, step.0, StripFrom(s[step.1..], false));
    }
  }

  /** `ImageOpensAt` from the positions of the `]` and the `(`. */
  lemma ImageOpensAtParts(s: string, k: nat, bracket: nat, paren: nat)
    requires k + 2 <= bracket < paren < |s|
    requires s[k] == '!' && s[k + 1] == '[' && ']' !in s[k + 2..bracket] && s[bracket] == ']'
    requires AllSpace(s[bracket + 1..paren]) && s[paren] == '('
    ensures ImageOpensAt(s, k)
  {
    FindIs(s, k + 2, ']', bracket);
    SkipSpaceIs(s, bracket + 1, paren);
  }

  /** Where the parts of `![alt]gap(rest` sit. */
  lemma TagHeadSlices(t: string, alt: string, gap: string, rest: string)
    requires t == "![" + alt + "]" + gap + "(" + rest
    ensures var bracket, paren := 2 + |alt|, 3 + |alt| + |gap|;
      && paren < |t| && t[0] == '!' && t[1] == '[' && t[2..bracket] == alt && t[bracket] == ']'
      && t[bracket + 1..paren] == gap && t[paren] == '('
  {
  }

  /** `ImageOpensAt` holds where an image tag with its `(` starts. */
  lemma ImageOpensAtTag(s: string, k: nat, alt: string, gap: string, rest: string)
    requires k <= |s| && s[k..] == "![" + alt + "]" + gap + "(" + rest
    requires ']' !in alt && AllSpace(gap)
    ensures ImageOpensAt(s, k)
  {
    var bracket, paren := 2 + |alt|, 3 + |alt| + |gap|;
    TagHeadSlices(s[k..], alt, gap, rest);
    SuffixSlice(s, k, 2, bracket);
    SuffixSlice(s, k, bracket + 1, paren);
    ImageOpensAtParts(s, k, k + bracket, k + paren);
  }

  lemma SuffixSlice(s: string, k: nat, i: nat, j: nat)
    requires k <= |s| && i <= j <= |s| - k
    ensures s[k..][i..j] == s[k + i..k + j]
  {
  }

  /** A quote before an image tag at the start of the text is removed with
      its surrounding whitespace; the scan resumes at the `!`. */
  lemma StripsLeadingQuote(lead: string, q: char, gap: string, alt: string, gap2: string, rest: string)
    requires AllSpace(lead) && IsQuote(q) && AllSpace(gap) && ']' !in alt && AllSpace(gap2)
    ensures var tag := "![" + alt + "]" + gap2 + "(" + rest;
            StripStrayQuotes(lead + [q] + gap + tag) == StripFrom(tag, false)
  {
    var tag := "![" + alt + "]" + gap2 + "(" + rest;
    var s := lead + [q] + gap + tag;
    var k := |lead| + 1 + |gap|;
    assert s[k..] == tag;
    assert s[..|lead|] == lead;
    SkipSpaceIs(s, 0, |lead|);
    assert s[|lead| + 1..k] == gap;
    SkipSpaceIs(s, |lead| + 1, k);
    ImageOpensAtTag(s, k, alt, gap2, rest);
    assert QuoteMatch(s, 0) == Some(k);
    assert StripNext(s, true) == ([], k);
  }

  // ---------------------------------------------------------------------
  // Steps 3 and 4: rejoining `![alt]` with a `(url)` split from it
  //   /(!\[[^\]]*\])\s*\n+\s*\(((?:https?:\/\/|\/)[^\s)]+)\)/g  and
  //   /(!\[[^\]]*\])\s+\(((?:https?:\/\/|\/)[^\s)]+)\)/g,  both → "$1($2)"

  /** `(?:https?:\/\/|\/)[^\s)]+` applied to a maximal `[^\s)]` run: a known
      prefix followed by at least one more character. */
  predicate UrlPrefixOk(u: string) {
    || (|u| > 7 && u[..7] == "http://")
    || (|u| > 8 && u[..8] == "https://")
    || (|u| > 1 && u[0] == '/')
  }

  /** Where a split tag matched at index 0: `s[..altEnd]` is `![alt]`,
      `s[altEnd..open]` the whitespace gap, `s[open]` the `(`, `s[close]` the `)`. */
  datatype TagSplit = TagSplit(altEnd: nat, open: nat, close: nat)

  function SplitTagAt(s: string, needNewline: bool): (r: Option<TagSplit>)
    ensures r.Some? ==> 2 < r.value.altEnd <= r.value.open < r.value.close < |s|
    ensures r.Some? ==> s[r.value.open] == '(' && s[r.value.close] == ')'
  {
    if |s| < 2 || s[0] != '!' || s[1] != '[' then None
    else
      var bracket := Find(s, 2, ']');
      if bracket == |s| then None
      else
        var altEnd := bracket + 1;
        var open := SkipSpace(s, altEnd);
        var gapOk := if needNewline then '\n' in s[altEnd..open] else altEnd < open;
        if !gapOk || open == |s| || s[open] != '(' then None
        else
          var close := UrlRunEnd(s, open + 1);
          if close == |s| || s[close] != ')' || !UrlPrefixOk(s[open + 1..close]) then None
          else Some(TagSplit(altEnd, open, close))
  }

  /** What a match found: `![alt]`, a whitespace gap (holding a line break
      for step 3, non-empty for step 4) and a `(url)` with a known prefix. */
  lemma SplitTagShape(s: string, needNewline: bool)
    requires SplitTagAt(s, needNewline).Some?
    ensures var t := SplitTagAt(s, needNewline).value;
      && s[0] == '!' && s[1] == '[' && s[t.altEnd - 1] == ']' && ']' !in s[2..t.altEnd - 1]
      && AllSpace(s[t.altEnd..t.open])
      && (needNewline ==> '\n' in s[t.altEnd..t.open])
      && (!needNewline ==> t.altEnd < t.open)
      && UrlPrefixOk(s[t.open + 1..t.close])
      && NoSpace(s[t.open + 1..t.close]) && ')' !in s[t.open + 1..t.close]
  {
    var bracket := Find(s, 2, ']');
    FindSpan(s, 2, ']');
    var open := SkipSpace(s, bracket + 1);
    SkipSpaceSpan(s, bracket + 1);
    var close := UrlRunEnd(s, open + 1);
    UrlRunSpan(s, open + 1);
  }

  /** One attempt of the rejoin scan at the front of `s`: the text it
      emits and the index where the scan resumes. */
  function RejoinNext(s: string, needNewline: bool): (r: (string, nat))
    requires s != []
    ensures 0 < r.1 <= |s| && |r.0| <= r.1
  {
    match SplitTagAt(s, needNewline)
    case Some(t) => (s[..t.altEnd] + "(" + s[t.open + 1..t.close] + ")", t.close + 1)
    case None => ([s[0]], 1)
  }

  /** The replace loop shared by steps 3 and 4. */
  function Rejoin(s: string, needNewline: bool): (r: string)
    ensures |r| <= |s|
    decreases |s|
  {
    if s == [] then []
    else
      var step := RejoinNext(s, needNewline);
      step.0 + Rejoin(s[step.1..], needNewline)
  }

  /** Repair 2: `![alt]` separated from its `(url)` by whitespace that
      contains a line break is joined back. Text without `(` is unchanged. */
  function RejoinAcrossNewlines(s: string): (r: string)
    ensures |r| <= |s|
    ensures '(' !in s ==> r == s
  {
    if '(' !in s then RejoinNoParen(s, true); Rejoin(s, true) else Rejoin(s, true)
  }

  /** Repair 3: the same for a gap of whitespace on one line. */
  function RejoinAcrossSpaces(s: string): (r: string)
    ensures |r| <= |s|
    ensures '(' !in s ==> r == s
  {
    if '(' !in s then RejoinNoParen(s, false); Rejoin(s, false) else Rejoin(s, false)
  }

  lemma {:induction false} RejoinNoParen(s: string, needNewline: bool)
    requires '(' !in s
    ensures Rejoin(s, needNewline) == s
    decreases |s|
  {
    if s != [] {
      assert SplitTagAt(s, needNewline).None?;
      RejoinNoParen(s[1..], needNewline);
      ConsTail(s, Rejoin(s[1..], needNewline));
    }
  }

  /** One attempt deletes only whitespace, and adds nothing. */
  lemma RejoinNextDeletes(s: string, needNewline: bool)
    requires s != []
    ensures var (emit, next) := RejoinNext(s, needNewline);
            && Erase(emit, IsSpace) == Erase(s[..next], IsSpace)
            && multiset(emit) <= multiset(s[..next])
  {
    match SplitTagAt(s, needNewline)
    case Some(t) =>
      SplitTagShape(s, needNewline);
      GapDeleted(s, t.altEnd, t.open, t.close);
    case None =>
      assert s[..1] == [s[0]];
  }

  /** Where a split tag starts, the rejoin emits the tag joined up. */
  lemma RejoinAtSplit(s: string, needNewline: bool, t: TagSplit)
    requires SplitTagAt(s, needNewline) == Some(t)
    ensures Rejoin(s, needNewline) ==
      s[..t.altEnd] + "(" + s[t.open + 1..t.close] + ")" + Rejoin(s[t.close + 1..], needNewline)
  {
    RejoinNextAtSplit(s, needNewline, t);
    RejoinUnfold(s, needNewline);
  }

  lemma RejoinNextAtSplit(s: string, needNewline: bool, t: TagSplit)
    requires SplitTagAt(s, needNewline) == Some(t)
    ensures RejoinNext(s, needNewline) == (s[..t.altEnd] + "(" + s[t.open + 1..t.close] + ")", t.close + 1)
  {
  }

  lemma RejoinUnfold(s: string, needNewline: bool)
    requires s != []
    ensures Rejoin(s, needNewline) ==
      RejoinNext(s, needNewline).0 + Rejoin(s[RejoinNext(s, needNewline).1..], needNewline)
  {
  }

  /** Cutting out the whitespace between `![alt]` and `(url)`. */
  lemma GapDeleted(s: string, altEnd: nat, open: nat, close: nat)
    requires altEnd <= open < close < |s| && s[open] == '(' && s[close] == ')'
    requires AllSpace(s[altEnd..open])
    ensures var emit := s[..altEnd] + "(" + s[open + 1..close] + ")";
            && Erase(emit, IsSpace) == Erase(s[..close + 1], IsSpace)
            && multiset(emit) <= multiset(s[..close + 1])
  {
    var head := s[..altEnd];
    var gap := s[altEnd..open];
    var tag := s[open..close + 1];
    assert tag == [s[open]] + s[open + 1..close] + [s[close]];
    assert s[..close + 1] == head + gap + tag;
    assert head + "(" + s[open + 1..close] + ")" == head + tag;
    EraseSplice(head, gap, tag, IsSpace);
  }

  /** The rejoin steps delete only whitespace. */
  lemma {:induction false} RejoinDeletesOnlySpace(s: string, needNewline: bool)
    ensures Erase(Rejoin(s, needNewline), IsSpace) == Erase(s, IsSpace)
    decreases |s|
  {
    if s != [] {
      var step := RejoinNext(s, needNewline);
      RejoinNextDeletes(s, needNewline);
      RejoinDeletesOnlySpace(s[step.1..], needNewline);
      EraseGlue(s, step.1, step.0, Rejoin(s[step.1..], needNewline), IsSpace);
    }
  }

  /** The rejoin steps add no character. */
  lemma {:induction false} RejoinAddsNothing(s: string, needNewline: bool)
    ensures multiset(Rejoin(s, needNewline)) <= multiset(s)
    decreases |s|
  {
    if s != [] {
      var step := RejoinNext(s, needNewline);
      RejoinNextDeletes(s, needNewline);
      RejoinAddsNothing(s[step.1..], needNewline);
      MultisetGlue(s, step.1, step.0, Rejoin(s[step.1..], needNewline));
    }
  }

  /** The match `SplitTagAt` finds, from the facts about its parts. */
  lemma SplitTagAtParts(s: string, needNewline: bool, altEnd: nat, open: nat, close: nat)
    requires 3 <= altEnd <= open < close < |s|
    requires s[0] == '!' && s[1] == '[' && s[altEnd - 1] == ']' && ']' !in s[2..altEnd - 1]
    requires AllSpace(s[altEnd..open]) && !IsSpace(s[open])
    requires if needNewline then '\n' in s[altEnd..open] else altEnd < open
    requires s[open] == '(' && s[close] == ')'
    requires NoSpace(s[open + 1..close]) && ')' !in s[open + 1..close]
    requires UrlPrefixOk(s[open + 1..close])
    ensures SplitTagAt(s, needNewline) == Some(TagSplit(altEnd, open, close))
  {
    FindIs(s, 2, ']', altEnd - 1);
    SkipSpaceIs(s, altEnd, open);
    UrlRunEndIs(s, open + 1, close);
  }

  /** The text of an image tag split from its `(url)` by `gap`. */
  function SplitTagText(alt: string, gap: string, url: string): (r: string)
    ensures |r| == 5 + |alt| + |gap| + |url|
  {
    "![" + alt + "]" + gap + "(" + url + ")"
  }

  /** Where the parts of a split tag sit in the text that starts with it. */
  lemma SplitTagSlices(alt: string, gap: string, url: string, rest: string)
    ensures var s := SplitTagText(alt, gap, url) + rest;
      var altEnd, open := 3 + |alt|, 3 + |alt| + |gap|;
      var close := open + 1 + |url|;
      && s[0] == '!' && s[1] == '[' && s[altEnd - 1] == ']'
      && s[..altEnd] == "![" + alt + "]" && s[2..altEnd - 1] == alt
      && s[altEnd..open] == gap && s[open] == '('
      && s[open + 1..close] == url && s[close] == ')' && s[close + 1..] == rest
  {
    var head := "![" + alt + "]";
    var call := "(" + url + ")";
    var t := SplitTagText(alt, gap, url);
    assert t == head + gap + call;
    var s := t + rest;
    assert s[..|t|] == t && s[|t|..] == rest;
    assert t[..|head|] == head && t[|head|..|head| + |gap|] == gap && t[|head| + |gap|..] == call;
    assert head[2..|head| - 1] == alt;
    assert call[1..1 + |url|] == url;
  }

  lemma SplitTagFound(alt: string, gap: string, url: string, rest: string, needNewline: bool)
    requires ']' !in alt && AllSpace(gap)
    requires if needNewline then '\n' in gap else gap != []
    requires UrlPrefixOk(url) && NoSpace(url) && ')' !in url
    ensures SplitTagAt(SplitTagText(alt, gap, url) + rest, needNewline)
              == Some(TagSplit(3 + |alt|, 3 + |alt| + |gap|, 4 + |alt| + |gap| + |url|))
  {
    var s := SplitTagText(alt, gap, url) + rest;
    SplitTagSlices(alt, gap, url, rest);
    var altEnd, open := 3 + |alt|, 3 + |alt| + |gap|;
    SplitTagAtParts(s, needNewline, altEnd, open, open + 1 + |url|);
  }

  /** A tag split from its `(url)` by a whitespace gap is emitted as
      `![alt](url)`, and the scan carries on after it. */
  lemma RejoinsTag(alt: string, gap: string, url: string, rest: string, needNewline: bool)
    requires ']' !in alt && AllSpace(gap)
    requires if needNewline then '\n' in gap else gap != []
    requires UrlPrefixOk(url) && NoSpace(url) && ')' !in url
    ensures Rejoin(SplitTagText(alt, gap, url) + rest, needNewline)
            == "![" + alt + "](" + url + ")" + Rejoin(rest, needNewline)
  {
    var s := SplitTagText(alt, gap, url) + rest;
    RejoinNextOfTag(alt, gap, url, rest, needNewline);
    RejoinUnfold(s, needNewline);
  }

  /** The scan's first attempt on a split tag joins it. */
  lemma RejoinNextOfTag(alt: string, gap: string, url: string, rest: string, needNewline: bool)
    requires ']' !in alt && AllSpace(gap)
    requires if needNewline then '\n' in gap else gap != []
    requires UrlPrefixOk(url) && NoSpace(url) && ')' !in url
    ensures var s := SplitTagText(alt, gap, url) + rest;
            var k := 5 + |alt| + |gap| + |url|;
            k <= |s| && s[k..] == rest && RejoinNext(s, needNewline) == ("![" + alt + "](" + url + ")", k)
  {
    var s := SplitTagText(alt, gap, url) + rest;
    SplitTagFound(alt, gap, url, rest, needNewline);
    var t := TagSplit(3 + |alt|, 3 + |alt| + |gap|, 4 + |alt| + |gap| + |url|);
    RejoinNextAtSplit(s, needNewline, t);
    SplitTagPieces(alt, gap, url, rest);
  }

  /** The joined tag built from the pieces of the split one. */
  lemma SplitTagPieces(alt: string, gap: string, url: string, rest: string)
    ensures var s := SplitTagText(alt, gap, url) + rest;
            var altEnd, open := 3 + |alt|, 3 + |alt| + |gap|;
            var close := open + 1 + |url|;
            && s[..altEnd] + "(" + s[open + 1..close] + ")" == "![" + alt + "](" + url + ")"
            && s[close + 1..] == rest
  {
    var s := SplitTagText(alt, gap, url) + rest;
    var altEnd, open := 3 + |alt|, 3 + |alt| + |gap|;
    var close := open + 1 + |url|;
    SplitTagSlices(alt, gap, url, rest);
    JoinedTagText(s[..altEnd] + "(" + s[open + 1..close] + ")", s[..altEnd], s[open + 1..close], alt, url);
  }

  lemma JoinedTagText(r: string, head: string, mid: string, alt: string, url: string)
    requires r == head + "(" + mid + ")" && head == "![" + alt + "]" && mid == url
    ensures r == "![" + alt + "](" + url + ")"
  {
  }

  /** What repair 2 is for: a tag whose `(url)` went onto a later line is
      emitted as `![alt](url)`, and the scan carries on after it. */
  lemma RejoinsAcrossNewline(alt: string, gap: string, url: string, rest: string)
    requires ']' !in alt && AllSpace(gap) && '\n' in gap
    requires UrlPrefixOk(url) && NoSpace(url) && ')' !in url
    ensures RejoinAcrossNewlines(SplitTagText(alt, gap, url) + rest)
            == "![" + alt + "](" + url + ")" + RejoinAcrossNewlines(rest)
  {
    RejoinsTag(alt, gap, url, rest, true);
  }

  /** What repair 3 is for: a tag with spaces before its `(url)` is emitted
      as `![alt](url)`. */
  lemma RejoinsAcrossSpaces(alt: string, gap: string, url: string, rest: string)
    requires ']' !in alt && AllSpace(gap) && gap != []
    requires UrlPrefixOk(url) && NoSpace(url) && ')' !in url
    ensures RejoinAcrossSpaces(SplitTagText(alt, gap, url) + rest)
            == "![" + alt + "](" + url + ")" + RejoinAcrossSpaces(rest)
  {
    RejoinsTag(alt, gap, url, rest, false);
  }

  // ---------------------------------------------------------------------
  // The image-URL line pattern (line 1):
  //   /^(?:https?:\/\/\S+|\/\S+)\.(?:png|jpe?g|webp|gif|avif|svg)(?:\?\S*)?$/i
  // The `i` flag without `u` folds ASCII letters only.

  const ImageExtensions: seq<string> := ["png", "jpg", "jpeg", "webp", "gif", "avif", "svg"]

  const UrlLinePrefixes: seq<string> := ["http://", "https://", "/"]

  predicate StartsWithIgnoringCase(t: string, p: string) {
    |p| <= |t| && LowerAsciiString(t[..|p|]) == p
  }

  /** One of the extensions at `j`, then the end of the text or a `?`. */
  predicate ExtensionAt(t: string, j: nat, ext: string)
    requires j <= |t|
  {
    && j + |ext| <= |t|
    && LowerAsciiString(t[j..j + |ext|]) == ext
    && (j + |ext| == |t| || t[j + |ext|] == '?')
  }

  predicate ImageExtensionAt(t: string, j: nat)
    requires j <= |t|
  {
    exists k :: 0 <= k < |ImageExtensions| && ExtensionAt(t, j, ImageExtensions[k])
  }

  /** The length of the scheme or `/` the line starts with, 0 if none. */
  function UrlLinePrefixLen(t: string): (n: nat)
    ensures n == 0 || n == 1 || n == 7 || n == 8
  {
    if StartsWithIgnoringCase(t, "https://") then 8
    else if StartsWithIgnoringCase(t, "http://") then 7
    else if StartsWithIgnoringCase(t, "/") then 1
    else 0
  }

  /** A `.` at `d` followed by an image extension. */
  predicate ImageDotAt(t: string, d: nat)
    requires d < |t|
  {
    t[d] == '.' && ImageExtensionAt(t, d + 1)
  }

  /** Scan for a `.` at or after `i` followed by an image extension. */
  predicate DotExtensionFrom(t: string, i: nat)
    requires i <= |t|
    decreases |t| - i
  {
    i < |t| && (ImageDotAt(t, i) || DotExtensionFrom(t, i + 1))
  }

  /** The recogniser for the line pattern. */
  predicate IsImageUrlLine(t: string) {
    var n := UrlLinePrefixLen(t);
    NoSpace(t) && n > 0 && n + 1 <= |t| && DotExtensionFrom(t, n + 1)
  }

  /** Some `.` at or after `i` is followed by an image extension. */
  ghost predicate ImageDotAfter(t: string, i: nat) {
    exists d :: i <= d < |t| && ImageDotAt(t, d)
  }

  /** The line pattern stated declaratively: no whitespace, one of the
      prefixes, at least one more character, then `.ext`, then the end or
      a `?query`. */
  ghost predicate ImageUrlLineSpec(t: string) {
    && NoSpace(t)
    && exists k :: 0 <= k < |UrlLinePrefixes|
         && StartsWithIgnoringCase(t, UrlLinePrefixes[k])
         && ImageDotAfter(t, |UrlLinePrefixes[k]| + 1)
  }

  lemma {:induction false} DotExtensionFromIff(t: string, i: nat)
    requires i <= |t|
    ensures DotExtensionFrom(t, i) <==> ImageDotAfter(t, i)
    decreases |t| - i
  {
    if i < |t| {
      DotExtensionFromIff(t, i + 1);
      if ImageDotAt(t, i) {
        assert ImageDotAfter(t, i);
      } else if ImageDotAfter(t, i) {
        var d :| i <= d < |t| && ImageDotAt(t, d);
        assert ImageDotAfter(t, i + 1);
      }
    }
  }

  /** At most one prefix applies: `http://` and `/` exclude `https://`, and
      `/` excludes both schemes. */
  lemma UrlLinePrefixUnique(t: string, k: nat)
    requires k < |UrlLinePrefixes| && StartsWithIgnoringCase(t, UrlLinePrefixes[k])
    ensures UrlLinePrefixLen(t) == |UrlLinePrefixes[k]|
  {
    if k == 0 {
      assert LowerAsciiString(t[..7])[4] == ':';
      if |t| >= 8 {
        assert LowerAsciiString(t[..8])[4] == LowerAscii(t[4]);
      }
    } else if k == 2 {
      assert LowerAsciiString(t[..1])[0] == '/';
      if |t| >= 7 {
        assert LowerAsciiString(t[..7])[0] == LowerAscii(t[0]);
      }
      if |t| >= 8 {
        assert LowerAsciiString(t[..8])[0] == LowerAscii(t[0]);
      }
    }
  }

  /** The recogniser accepts exactly the lines the pattern describes. */
  lemma IsImageUrlLineIff(t: string)
    ensures IsImageUrlLine(t) <==> ImageUrlLineSpec(t)
  {
    var n := UrlLinePrefixLen(t);
    if IsImageUrlLine(t) {
      DotExtensionFromIff(t, n + 1);
      var k := if n == 7 then 0 else if n == 8 then 1 else 2;
      assert UrlLinePrefixes[k] == (if n == 7 then "http://" else if n == 8 then "https://" else "/");
    }
    if ImageUrlLineSpec(t) {
      var k :| 0 <= k < |UrlLinePrefixes|
               && StartsWithIgnoringCase(t, UrlLinePrefixes[k])
               && ImageDotAfter(t, |UrlLinePrefixes[k]| + 1);
      UrlLinePrefixUnique(t, k);
      DotExtensionFromIff(t, n + 1);
    }
  }

  lemma LowerAsciiFixed(x: string)
    requires forall i :: 0 <= i < |x| ==> !('A' <= x[i] <= 'Z')
    ensures LowerAsciiString(x) == x
  {
  }

  lemma NoSpaceConcat(a: string, b: string)
    requires NoSpace(a) && NoSpace(b)
    ensures NoSpace(a + b)
  {
    forall i | 0 <= i < |a + b| ensures !IsSpace((a + b)[i]) {
      if i >= |a| { assert (a + b)[i] == b[i - |a|]; }
    }
  }

  lemma PrefixPlain(k: nat)
    requires k < |UrlLinePrefixes|
    ensures LowerAsciiString(UrlLinePrefixes[k]) == UrlLinePrefixes[k] && NoSpace(UrlLinePrefixes[k])
  {
    LowerAsciiFixed(UrlLinePrefixes[k]);
  }

  lemma ExtensionPlain(e: nat)
    requires e < |ImageExtensions|
    ensures LowerAsciiString(ImageExtensions[e]) == ImageExtensions[e] && NoSpace(ImageExtensions[e])
  {
    LowerAsciiFixed(ImageExtensions[e]);
  }

  /** An example family the pattern accepts: a prefix, a non-blank body,
      `.` and a lower-case extension, then nothing or a `?query`. */
  lemma RecognisesImageUrl(k: nat, body: string, e: nat, query: string)
    requires k < |UrlLinePrefixes| && e < |ImageExtensions|
    requires body != [] && NoSpace(body) && NoSpace(query)
    requires query == [] || query[0] == '?'
    ensures IsImageUrlLine(UrlLinePrefixes[k] + body + "." + ImageExtensions[e] + query)
  {
    var p := UrlLinePrefixes[k];
    var ext := ImageExtensions[e];
    PrefixPlain(k);
    ExtensionPlain(e);
    var t := p + body + "." + ext + query;
    var d := |p| + |body|;
    assert t[..|p|] == p;
    assert StartsWithIgnoringCase(t, p);
    assert t[d + 1..d + 1 + |ext|] == ext;
    assert ExtensionAt(t, d + 1, ext);
    assert t[d] == '.';
    assert ImageDotAt(t, d);
    assert ImageDotAfter(t, |p| + 1);
    NoSpaceConcat(p, body);
    NoSpaceConcat(p + body, ".");
    NoSpaceConcat(p + body + ".", ext);
    NoSpaceConcat(p + body + "." + ext, query);
    assert ImageUrlLineSpec(t);
    IsImageUrlLineIff(t);
  }

  // ---------------------------------------------------------------------
  // The line pass: `split(/\r?\n/)`, `map`, `join("\n")`, `trim()`

  function ImageTag(alt: string, url: string): string {
    "![" + alt + "](" + url + ")"
  }

  /** `x` without one trailing carriage return. */
  function DropFinalCr(x: string): (r: string)
    ensures r == x || r + "\r" == x
  {
    if x != [] && x[|x| - 1] == '\r' then x[..|x| - 1] else x
  }

  /** `split(/\r?\n/)`: the pieces between line feeds; a `\r` right before a
      line feed belongs to the separator, so every piece but the last loses
      one trailing `\r`. */
  function SplitLines(s: string): (r: seq<string>)
    ensures |r| == |Split(s, '\n')|
    ensures forall k :: 0 <= k < |r| ==> '\n' !in r[k]
  {
    var pieces := Split(s, '\n');
    seq(|pieces|, k requires 0 <= k < |pieces| =>
      if k < |pieces| - 1 then DropFinalCr(pieces[k]) else pieces[k])
  }

  /** Without carriage returns the line split is the plain split on `\n`. */
  lemma SplitLinesWithoutCr(s: string)
    requires '\r' !in s
    ensures SplitLines(s) == Split(s, '\n')
  {
    SplitKeepsOut(s, '\n', '\r');
  }

  /** The callback of the `map`: a line whose trimmed text is blank or
      already an image tag is kept; one that is a bare image URL becomes an
      image tag with the default alt text; every other line is kept. */
  function TransformLine(line: string): string {
    var trimmed := Trim(line);
    if trimmed == [] || StartsWith(trimmed, "![") then line
    else if !IsImageUrlLine(trimmed) then line
    else ImageTag(DefaultAlt, trimmed)
  }

  /** The callback stated with the declarative line pattern. */
  lemma TransformLineMeaning(line: string)
    ensures var t := Trim(line);
            if t != [] && !StartsWith(t, "![") && ImageUrlLineSpec(t)
            then TransformLine(line) == ImageTag(DefaultAlt, t)
            else TransformLine(line) == line
  {
    IsImageUrlLineIff(Trim(line));
  }

  function TransformLines(lines: seq<string>): (r: seq<string>)
    ensures |r| == |lines|
    ensures forall k :: 0 <= k < |r| ==> r[k] == TransformLine(lines[k])
  {
    seq(|lines|, k requires 0 <= k < |lines| => TransformLine(lines[k]))
  }

  /** A character other than those of the default tag that is absent from a
      line is absent from its transform. */
  lemma TransformLineKeepsOut(line: string, c: char)
    requires c !in line && c !in ImageTag(DefaultAlt, "")
    ensures c !in TransformLine(line)
  {
    var t := Trim(line);
    if c in t { TrimSubset(line, c); }
    assert TransformLine(line) == line || TransformLine(line) == ImageTag(DefaultAlt, t);
    TagKeepsOut(DefaultAlt, t, c);
  }

  lemma TagKeepsOut(alt: string, url: string, c: char)
    requires c !in url && c !in ImageTag(alt, "")
    ensures c !in ImageTag(alt, url)
  {
    assert ImageTag(alt, url) == "![" + alt + "](" + url + ")";
    assert ImageTag(alt, "") == "![" + alt + "](" + ")";
  }

  function LinePass(s: string): string {
    Join(TransformLines(SplitLines(s)), '\n')
  }

  /** The line pass is a `map`: its output has as many lines as its input,
      and line k of the output is the transform of line k of the input. */
  lemma LinePassLines(s: string)
    ensures Split(LinePass(s), '\n') == TransformLines(SplitLines(s))
    ensures |Split(LinePass(s), '\n')| == |SplitLines(s)|
  {
    var lines := SplitLines(s);
    var out := TransformLines(lines);
    forall k | 0 <= k < |out| ensures '\n' !in out[k] {
      TransformLineKeepsOut(lines[k], '\n');
    }
    SplitJoin(out, '\n');
  }

  // ---------------------------------------------------------------------
  // normalizePostContent

  /** The whole normaliser: the four replacements, then the line pass and a
      final trim. The result never starts or ends with whitespace. */
  function NormalizePostContent(content: string): (r: string)
    ensures NoEdgeSpace(r)
  {
    var repaired := RejoinAcrossSpaces(RejoinAcrossNewlines(StripStrayQuotes(UnifyCrlf(content))));
    Trim(LinePass(repaired))
  }

  lemma NoCrThroughMultiset(a: string, b: string)
    requires multiset(a) <= multiset(b) && '\r' !in b
    ensures '\r' !in a
  {
    assert multiset(a)['\r'] <= multiset(b)['\r'] == 0;
  }

  /** The line pass adds no carriage return. */
  lemma LinePassNoCr(s: string)
    requires '\r' !in s
    ensures '\r' !in LinePass(s)
  {
    SplitLinesWithoutCr(s);
    SplitKeepsOut(s, '\n', '\r');
    var lines := SplitLines(s);
    var out := TransformLines(lines);
    assert '\r' !in ImageTag(DefaultAlt, "");
    forall k | 0 <= k < |out| ensures '\r' !in out[k] {
      TransformLineKeepsOut(lines[k], '\r');
    }
    JoinKeepsOut(out, '\n', '\r');
  }

  /** Content whose carriage returns all belong to CRLF pairs is normalised
      to text without any carriage return, hence without any CRLF. */
  lemma NormalizeRemovesCrlf(content: string)
    requires CrOnlyInCrlf(content)
    ensures '\r' !in NormalizePostContent(content)
  {
    var s1 := UnifyCrlf(content);
    UnifyCrlfNoCr(content);
    var s2 := StripStrayQuotes(s1);
    StripFromAddsNothing(s1, true);
    NoCrThroughMultiset(s2, s1);
    var s3 := RejoinAcrossNewlines(s2);
    RejoinAddsNothing(s2, true);
    NoCrThroughMultiset(s3, s2);
    var s4 := RejoinAcrossSpaces(s3);
    RejoinAddsNothing(s3, false);
    NoCrThroughMultiset(s4, s3);
    LinePassNoCr(s4);
    if '\r' in Trim(LinePass(s4)) {
      TrimSubset(LinePass(s4), '\r');
    }
  }

  /** The guarantee needs every `\r` to start a CRLF pair: in
      `"a\r\r\r\nb"` step 1 leaves `"a\r\r\nb"`, the line split drops only
      the `\r` next to the line feed, and the join puts the other one back
      in front of a line feed. */
  lemma LoneCrCanSurvive(s: string)
    requires s == "a\r\r\r\nb"
    ensures NormalizePostContent(s) == "a\r\nb"
  {
    var s1 := UnifyCrlf(s);
    LoneCrStep1(s);
    LoneCrRepairs(s1);
    LoneCrLines(s1);
    LoneCrTrim(LinePass(s1));
  }

  lemma LoneCrRepairs(s1: string)
    requires s1 == "a\r\r\nb"
    ensures RejoinAcrossSpaces(RejoinAcrossNewlines(StripStrayQuotes(s1))) == s1
  {
    assert forall i :: 0 <= i < |s1| ==> !IsQuote(s1[i]);
    assert '(' !in s1;
  }

  lemma LoneCrTrim(t: string)
    requires t == "a\r\nb"
    ensures Trim(t) == t
  {
    TrimNoEdgeSpace(t);
  }

  lemma LoneCrStep1(s: string)
    requires s == "a\r\r\r\nb"
    ensures UnifyCrlf(s) == "a\r\r\nb"
  {
    var x4: string := "b";
    UnifyCrlfCons('b', []);
    assert x4 == ['b'] + [];
    var x3 := "\r\n" + x4;
    UnifyCrlfPair(x4);
    var x2 := ['\r'] + x3;
    UnifyCrlfCons('\r', x3);
    var x1 := ['\r'] + x2;
    UnifyCrlfCons('\r', x2);
    var x0 := ['a'] + x1;
    UnifyCrlfCons('a', x1);
    assert s == x0;
  }

  lemma UnifyCrlfCons(c: char, x: string)
    requires c != '\r' || x == [] || x[0] != '\n'
    ensures UnifyCrlf([c] + x) == [c] + UnifyCrlf(x)
  {
    assert ([c] + x)[1..] == x;
  }

  lemma UnifyCrlfPair(x: string)
    ensures UnifyCrlf("\r\n" + x) == "\n" + UnifyCrlf(x)
  {
    assert ("\r\n" + x)[2..] == x;
  }

  lemma LoneCrLines(s1: string)
    requires s1 == "a\r\r\nb"
    ensures LinePass(s1) == "a\r\nb"
  {
    var lines := SplitLines(s1);
    LoneCrSplit(s1);
    LoneCrLineKept(lines[0]);
    LoneCrLineKept(lines[1]);
    LoneCrTransforms(lines);
    LoneCrJoin(lines);
  }

  lemma LoneCrTransforms(lines: seq<string>)
    requires |lines| == 2 && TransformLine(lines[0]) == lines[0] && TransformLine(lines[1]) == lines[1]
    ensures TransformLines(lines) == lines
  {
    PairEq(TransformLines(lines), lines);
  }

  lemma PairEq(a: seq<string>, b: seq<string>)
    requires |a| == |b| == 2 && a[0] == b[0] && a[1] == b[1]
    ensures a == b
  {
  }

  lemma LoneCrJoin(lines: seq<string>)
    requires lines == ["a\r", "b"]
    ensures Join(lines, '\n') == "a\r\nb"
  {
    assert lines[1..] == ["b"];
    assert Join(lines[1..], '\n') == "b";
  }

  lemma LoneCrSplit(s1: string)
    requires s1 == "a\r\r\nb"
    ensures SplitLines(s1) == ["a\r", "b"]
  {
    var head := s1[..3];
    var tail := s1[4..];
    assert s1 == head + ['\n'] + tail;
    SplitPrefix(head, tail, '\n');
    SplitNoSep(tail, '\n');
    assert Split(s1, '\n') == [head, tail];
    assert head[..2] == "a\r";
  }

  /** Neither line of the example is touched by the line pass. */
  lemma LoneCrLineKept(line: string)
    requires line == "a\r" || line == "b"
    ensures TransformLine(line) == line
  {
    if line == "a\r" {
      TrimOfLoneCrLine(line);
    } else {
      TrimNoEdgeSpace(line);
    }
    var t := Trim(line);
    assert !StartsWithIgnoringCase(t, "/") && !StartsWithIgnoringCase(t, "http://");
  }

  lemma TrimOfLoneCrLine(line: string)
    requires line == "a\r"
    ensures Trim(line) == "a"
  {
    assert TrimStart(line) == line;
    assert line[..1] == "a";
    assert TrimEnd("a") == "a";
  }

  // ---------------------------------------------------------------------
  // extractMarkdownImageUrls: /!\[[^\]]*]\(([^)\s]+)(?:\s+"[^"]*")?\)/g

  /** Where an image reference matched at index 0: the captured URL is
      `s[urlStart..urlEnd]` and the match ends at `end`. */
  datatype ImageRef = ImageRef(urlStart: nat, urlEnd: nat, end: nat)

  /** The optional title `\s+"[^"]*"` is tried only when whitespace follows
      the URL run; if it does not complete with `")`, the whole match fails,
      because the `)` would then have to be that whitespace. */
  function ImageRefAt(s: string): (r: Option<ImageRef>)
    ensures r.Some? ==> 2 < r.value.urlStart < r.value.urlEnd < r.value.end <= |s|
    ensures r.Some? ==> NoSpace(s[r.value.urlStart..r.value.urlEnd])
    ensures r.Some? ==> ')' !in s[r.value.urlStart..r.value.urlEnd]
  {
    if |s| < 2 || s[0] != '!' || s[1] != '[' then None
    else
      var bracket := Find(s, 2, ']');
      if bracket + 1 >= |s| || s[bracket + 1] != '(' then None
      else
        var urlStart := bracket + 2;
        var urlEnd := UrlRunEnd(s, urlStart);
        UrlRunSpan(s, urlStart);
        if urlEnd == urlStart || urlEnd == |s| then None
        else if s[urlEnd] == ')' then Some(ImageRef(urlStart, urlEnd, urlEnd + 1))
        else
          var quote := SkipSpace(s, urlEnd);
          if quote == |s| || s[quote] != '"' then None
          else
            var closeQuote := Find(s, quote + 1, '"');
            if closeQuote + 1 < |s| && s[closeQuote + 1] == ')'
            then Some(ImageRef(urlStart, urlEnd, closeQuote + 2))
            else None
  }

  /** `matchAll(...)` mapped to the first capture group. */
  function Captures(s: string): (r: seq<string>)
    ensures forall k :: 0 <= k < |r| ==> r[k] != [] && NoSpace(r[k]) && ')' !in r[k]
    decreases |s|
  {
    if s == [] then []
    else
      match ImageRefAt(s)
      case Some(m) => [s[m.urlStart..m.urlEnd]] + Captures(s[m.end..])
      case None => Captures(s[1..])
  }

  /** A well-formed image tag yields its URL, and the scan resumes after it. */
  lemma CapturesImageTag(alt: string, url: string, rest: string)
    requires ']' !in alt && url != [] && NoSpace(url) && ')' !in url
    ensures Captures("![" + alt + "](" + url + ")" + rest) == [url] + Captures(rest)
  {
    var s := "![" + alt + "](" + url + ")" + rest;
    var urlStart := |alt| + 4;
    var urlEnd := urlStart + |url|;
    assert s[2..2 + |alt|] == alt;
    FindIs(s, 2, ']', 2 + |alt|);
    assert s[urlStart..urlEnd] == url;
    UrlRunEndIs(s, urlStart, urlEnd);
    assert ImageRefAt(s) == Some(ImageRef(urlStart, urlEnd, urlEnd + 1));
    assert s[urlEnd + 1..] == rest;
  }

  /** The image URLs of the normalised content, each once, in the order
      they first appear; none is empty or contains whitespace. */
  function ExtractMarkdownImageUrls(content: string): (r: seq<string>)
    ensures NoDup(r)
    ensures forall k :: 0 <= k < |r| ==> r[k] != [] && NoSpace(r[k])
    ensures forall k :: 0 <= k < |r| ==> r[k] in Captures(NormalizePostContent(content))
    ensures forall k :: 0 <= k < |Captures(NormalizePostContent(content))| ==>
              Captures(NormalizePostContent(content))[k] in r
  {
    var found := Captures(NormalizePostContent(content));
    NonEmptyKeepsAll(found);
    Dedupe(NonEmpty(found))
  }

  /** First-seen order: of two extracted URLs, the earlier one first occurs
      earlier in the content. */
  lemma ExtractFirstSeenOrder(content: string, i: nat, j: nat)
    requires i < j < |ExtractMarkdownImageUrls(content)|
    ensures var found := Captures(NormalizePostContent(content));
            var r := ExtractMarkdownImageUrls(content);
            r[i] in found && r[j] in found && FirstIndex(found, r[i]) < FirstIndex(found, r[j])
  {
    var found := Captures(NormalizePostContent(content));
    NonEmptyKeepsAll(found);
    DedupeOrder(found, i, j);
  }

  // ---------------------------------------------------------------------
  // getPostPreviewImage

  /** The cover image if it is not blank (trimmed), else the first image of
      the content; `None` stands for `null`. Never an empty string. */
  function GetPostPreviewImage(content: string, coverImage: Option<string>): (r: Option<string>)
    ensures r.Some? ==> r.value != [] && NoEdgeSpace(r.value)
    ensures coverImage.Some? && Trim(coverImage.value) != [] ==> r == Some(Trim(coverImage.value))
    ensures !(coverImage.Some? && Trim(coverImage.value) != []) ==>
              r == (if ExtractMarkdownImageUrls(content) == [] then None
                    else Some(ExtractMarkdownImageUrls(content)[0]))
  {
    if coverImage.Some? && Trim(coverImage.value) != [] then Some(Trim(coverImage.value))
    else
      var urls := ExtractMarkdownImageUrls(content);
      if urls == [] then None
      else
        var first := Trim(urls[0]);
        TrimNoSpace(urls[0]);
        if first == [] then None else Some(first)
  }
}
