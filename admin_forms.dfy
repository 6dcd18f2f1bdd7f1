/** The pure helpers and the input schemas of src/app/admin/actions.ts:
    slug derivation, list parsing, the return-path guard, query joining,
    index parsing and the zod schemas as validators over submitted forms. */
module AdminForms {
  import opened Wrappers
  import opened JsText
  import opened Collections

  /** A submitted form: the string entries. A key that is absent stands for
      a missing entry or a file, both of which `formData.get` does not
      return as a string. */
  type Form = map<string, string>

  /** How a server action ends: a redirect (which persists nothing after
      it), or an error thrown by the database, after which nothing of the
      action is persisted either. */
  datatype Outcome = Redirect(location: string) | Thrown

  /** Where `requireAdminSession` sends a request without a session. */
  const LoginPath := "/admin/login"

  // ---------------------------------------------------------------------
  // slugify

  predicate SlugChar(c: char) {
    'a' <= c <= 'z' || '0' <= c <= '9' || c == '-'
  }

  predicate IsHyphen(c: char) { c == '-' }

  /** The complement of `[a-z0-9\s-]`. */
  predicate NotSlugOrSpace(c: char) { !SlugChar(c) && !IsSpace(c) }

  predicate AllSlugChars(s: string) {
    forall i :: 0 <= i < |s| ==> SlugChar(s[i])
  }

  predicate SlugOrSpaceChars(s: string) {
    forall i :: 0 <= i < |s| ==> SlugChar(s[i]) || IsSpace(s[i])
  }

  predicate NoDoubleHyphen(s: string) {
    forall i :: 0 <= i < |s| - 1 ==> !(s[i] == '-' && s[i + 1] == '-')
  }

  /** What `slugify` produces: only `[a-z0-9-]` and never `--`. */
  predicate IsSlug(s: string) {
    AllSlugChars(s) && NoDoubleHyphen(s)
  }

  /** A global `replace(/X+/g, repl)`: each maximal run of characters in the
      class `inRun` becomes one `repl`. `afterRun` is true right after a run
      that was already replaced. */
  function ReplaceRuns(s: string, inRun: char -> bool, repl: char, afterRun: bool): (r: string)
    ensures afterRun ==> r == [] || !inRun(r[0])
    ensures !afterRun ==> (r == [] <==> s == [])
    ensures forall i :: 0 <= i < |r| ==> r[i] == repl || !inRun(r[i])
    ensures forall i :: 0 <= i < |r| - 1 ==> !(inRun(r[i]) && inRun(r[i + 1]))
  {
    if s == [] then []
    else if inRun(s[0]) then
      (if afterRun then [] else [repl]) + ReplaceRuns(s[1..], inRun, repl, true)
    else
      [s[0]] + ReplaceRuns(s[1..], inRun, repl, false)
  }

  /** Each maximal run is replaced on its own: for a run that neither
      extends to the left nor to the right, the result is the result of
      what precedes the run, one replacement, and the result of what
      follows. */
  lemma {:induction false} ReplaceRunsSplit(a: string, run: string, c: string, inRun: char -> bool,
                                            repl: char, afterRun: bool)
    requires a == [] ==> !afterRun
    requires a != [] ==> !inRun(a[|a| - 1])
    requires run != [] && forall i :: 0 <= i < |run| ==> inRun(run[i])
    requires c != [] ==> !inRun(c[0])
    ensures ReplaceRuns(a + run + c, inRun, repl, afterRun) ==
            ReplaceRuns(a, inRun, repl, afterRun) + [repl] + ReplaceRuns(c, inRun, repl, false)
    decreases |a|
  {
    if a == [] {
      assert a + run + c == run + c;
      ReplaceRunsRunFirst(run, c, inRun, repl);
    } else {
      var head := if inRun(a[0]) then (if afterRun then [] else [repl]) else [a[0]];
      var after := inRun(a[0]);
      var s := a + run + c;
      assert s[0] == a[0] && s[1..] == a[1..] + run + c;
      ReplaceRunsCons(s, inRun, repl, afterRun);
      ReplaceRunsCons(a, inRun, repl, afterRun);
      ReplaceRunsSplit(a[1..], run, c, inRun, repl, after);
      Regroup4(head, ReplaceRuns(a[1..], inRun, repl, after), [repl], ReplaceRuns(c, inRun, repl, false));
    }
  }

  /** One step of the replacement. */
  lemma ReplaceRunsCons(s: string, inRun: char -> bool, repl: char, afterRun: bool)
    requires s != []
    ensures ReplaceRuns(s, inRun, repl, afterRun) ==
            (if inRun(s[0]) then (if afterRun then [] else [repl]) else [s[0]])
            + ReplaceRuns(s[1..], inRun, repl, inRun(s[0]))
  {
  }

  lemma Regroup4(a: string, b: string, c: string, d: string)
    ensures a + (b + c + d) == a + b + c + d
  {
  }

  /** A run at the start becomes one replacement. */
  lemma ReplaceRunsRunFirst(run: string, c: string, inRun: char -> bool, repl: char)
    requires run != [] && forall i :: 0 <= i < |run| ==> inRun(run[i])
    requires c != [] ==> !inRun(c[0])
    ensures ReplaceRuns(run + c, inRun, repl, false) == [repl] + ReplaceRuns(c, inRun, repl, false)
  {
    assert (run + c)[0] == run[0] && (run + c)[1..] == run[1..] + c;
    ReplaceRunsSkipRun(run[1..], c, inRun, repl);
    ReplaceRunsAfterRun(c, inRun, repl);
  }

  /** Right after a run, the rest of the run is swallowed. */
  lemma {:induction false} ReplaceRunsSkipRun(run: string, c: string, inRun: char -> bool, repl: char)
    requires forall i :: 0 <= i < |run| ==> inRun(run[i])
    ensures ReplaceRuns(run + c, inRun, repl, true) == ReplaceRuns(c, inRun, repl, true)
    decreases |run|
  {
    if run == [] {
      assert run + c == c;
    } else {
      assert (run + c)[1..] == run[1..] + c;
      ReplaceRunsSkipRun(run[1..], c, inRun, repl);
    }
  }

  /** Text that does not start inside a run is replaced the same way
      whether or not a run came just before it. */
  lemma ReplaceRunsAfterRun(c: string, inRun: char -> bool, repl: char)
    requires c != [] ==> !inRun(c[0])
    ensures ReplaceRuns(c, inRun, repl, true) == ReplaceRuns(c, inRun, repl, false)
  {
  }

  /** The replacement keeps every character outside the runs, in order:
      erasing the run characters and the replacement from the result gives
      the input with the run characters erased. */
  lemma {:induction false} ReplaceRunsErase(s: string, inRun: char -> bool, repl: char, afterRun: bool,
                                            drop: char -> bool)
    requires forall ch :: inRun(ch) ==> drop(ch)
    requires drop(repl)
    ensures Erase(ReplaceRuns(s, inRun, repl, afterRun), drop) == Erase(s, drop)
  {
    if s != [] {
      ReplaceRunsErase(s[1..], inRun, repl, inRun(s[0]), drop);
      var head := if inRun(s[0]) then (if afterRun then [] else [repl]) else [s[0]];
      var rest := ReplaceRuns(s[1..], inRun, repl, inRun(s[0]));
      EraseAppend(head, rest, drop);
      assert s == [s[0]] + s[1..];
      EraseCons(s[0], s[1..], drop);
    }
  }

  /** With `-` as the replacement, slug characters outside the runs give a
      result made of slug characters only. */
  lemma {:induction false} ReplaceRunsKeepsSlug(s: string, inRun: char -> bool, afterRun: bool)
    requires forall i :: 0 <= i < |s| ==> SlugChar(s[i]) || inRun(s[i])
    ensures AllSlugChars(ReplaceRuns(s, inRun, '-', afterRun))
  {
    if s != [] {
      assert forall i :: 0 <= i < |s[1..]| ==> SlugChar(s[1..][i]) || inRun(s[1..][i]) by {
        forall i | 0 <= i < |s[1..]| ensures SlugChar(s[1..][i]) || inRun(s[1..][i]) { assert s[1..][i] == s[i + 1]; }
      }
      var head := if inRun(s[0]) then (if afterRun then [] else "-") else [s[0]];
      var rest := ReplaceRuns(s[1..], inRun, '-', inRun(s[0]));
      ReplaceRunsKeepsSlug(s[1..], inRun, inRun(s[0]));
      var r := ReplaceRuns(s, inRun, '-', afterRun);
      assert r == head + rest;
      forall i | 0 <= i < |r| ensures SlugChar(r[i]) {
        if i >= |head| { assert r[i] == rest[i - |head|]; }
      }
    }
  }

  /** `.replace(/\s+/g, "-")` */
  function HyphenateSpaces(s: string): (r: string)
    ensures NoSpace(r)
    ensures SlugOrSpaceChars(s) ==> AllSlugChars(r)
    ensures r == [] <==> s == []
  {
    if SlugOrSpaceChars(s) then
      ReplaceRunsKeepsSlug(s, IsSpace, false);
      ReplaceRuns(s, IsSpace, '-', false)
    else ReplaceRuns(s, IsSpace, '-', false)
  }

  /** `.replace(/-+/g, "-")` */
  function SquashHyphens(s: string): (r: string)
    ensures NoDoubleHyphen(r)
    ensures AllSlugChars(s) ==> AllSlugChars(r)
    ensures r == [] <==> s == []
  {
    if AllSlugChars(s) then
      ReplaceRunsKeepsSlug(s, IsHyphen, false);
      ReplaceRuns(s, IsHyphen, '-', false)
    else ReplaceRuns(s, IsHyphen, '-', false)
  }

  /** `slugify`: lower-case, drop everything but `[a-z0-9\s-]`, trim, turn
      each whitespace run into `-`, then each `-` run into one `-`. */
  function Slugify(input: string): (r: string)
    ensures IsSlug(r)
  {
    var kept := Erase(LowerAsciiString(input), NotSlugOrSpace);
    EraseKeeps(LowerAsciiString(input));
    var trimmed := Trim(kept);
    TrimKeepsSlugOrSpace(kept);
    SquashHyphens(HyphenateSpaces(trimmed))
  }

  lemma {:induction false} EraseKeeps(s: string)
    ensures SlugOrSpaceChars(Erase(s, NotSlugOrSpace))
  {
    if s != [] {
      EraseKeeps(s[1..]);
      var head := if NotSlugOrSpace(s[0]) then [] else [s[0]];
      var r := Erase(s, NotSlugOrSpace);
      assert r == head + Erase(s[1..], NotSlugOrSpace);
      forall i | 0 <= i < |r| ensures SlugChar(r[i]) || IsSpace(r[i]) {
        if i >= |head| {
          assert r[i] == Erase(s[1..], NotSlugOrSpace)[i - |head|];
        }
      }
    }
  }

  lemma TrimKeepsSlugOrSpace(s: string)
    requires SlugOrSpaceChars(s)
    ensures SlugOrSpaceChars(Trim(s))
  {
    var i := Lead(s);
    SliceKeepsSlugOrSpace(s, i, i + |Trim(s)|);
  }

  lemma SliceKeepsSlugOrSpace(s: string, i: nat, j: nat)
    requires i <= j <= |s| && SlugOrSpaceChars(s)
    ensures SlugOrSpaceChars(s[i..j])
  {
    forall k | 0 <= k < j - i ensures SlugChar(s[i..j][k]) || IsSpace(s[i..j][k]) {
      assert s[i..j][k] == s[i + k];
    }
  }

  /** A slug is its own slug: `slugify` is idempotent. */
  lemma SlugifyFixesSlugs(s: string)
    requires IsSlug(s)
    ensures Slugify(s) == s
  {
    SlugKeptChars(s);
    SlugHyphenated(s);
    ReplaceRunsSingleHyphens(s, false);
  }

  /** The first two stages keep a slug. */
  lemma SlugKeptChars(s: string)
    requires IsSlug(s)
    ensures Erase(LowerAsciiString(s), NotSlugOrSpace) == s
  {
    SlugLowerFixed(s);
    EraseKeepsAll(s, NotSlugOrSpace);
  }

  /** Trimming and turning whitespace runs into `-` keep a slug. */
  lemma SlugHyphenated(s: string)
    requires IsSlug(s)
    ensures HyphenateSpaces(Trim(s)) == s
  {
    SlugTrimFixed(s);
    ReplaceRunsNoRun(s, IsSpace, '-');
  }

  lemma SlugLowerFixed(s: string)
    requires AllSlugChars(s)
    ensures LowerAsciiString(s) == s
  {
  }

  lemma SlugTrimFixed(s: string)
    requires AllSlugChars(s)
    ensures Trim(s) == s
  {
    TrimNoSpace(s);
  }

  lemma SlugifyIdempotent(input: string)
    ensures Slugify(Slugify(input)) == Slugify(input)
  {
    SlugifyFixesSlugs(Slugify(input));
  }

  lemma {:induction false} EraseKeepsAll(s: string, drop: char -> bool)
    requires forall i :: 0 <= i < |s| ==> !drop(s[i])
    ensures Erase(s, drop) == s
  {
    if s != [] {
      EraseKeepsAll(s[1..], drop);
      assert [s[0]] + s[1..] == s;
    }
  }

  lemma {:induction false} ReplaceRunsNoRun(s: string, inRun: char -> bool, repl: char)
    requires forall i :: 0 <= i < |s| ==> !inRun(s[i])
    ensures ReplaceRuns(s, inRun, repl, false) == s
  {
    if s != [] {
      ReplaceRunsNoRun(s[1..], inRun, repl);
      assert [s[0]] + s[1..] == s;
    }
  }

  lemma {:induction false} ReplaceRunsSingleHyphens(s: string, afterRun: bool)
    requires NoDoubleHyphen(s)
    requires afterRun ==> s == [] || s[0] != '-'
    ensures ReplaceRuns(s, IsHyphen, '-', afterRun) == s
  {
    if s != [] {
      assert NoDoubleHyphen(s[1..]) by {
        forall i | 0 <= i < |s[1..]| - 1 ensures !(s[1..][i] == '-' && s[1..][i + 1] == '-') {
          assert s[1..][i] == s[i + 1] && s[1..][i + 1] == s[i + 2];
        }
      }
      if s[0] == '-' {
        assert |s| > 1 ==> s[1] != '-';
        ReplaceRunsSingleHyphens(s[1..], true);
      } else {
        ReplaceRunsSingleHyphens(s[1..], false);
      }
      assert [s[0]] + s[1..] == s;
    }
  }

  /** The slug is empty exactly when the lower-cased input has no character
      of `[a-z0-9-]`. */
  lemma SlugifyEmptyIff(input: string)
    ensures Slugify(input) == [] <==> forall i :: 0 <= i < |input| ==> !SlugChar(LowerAscii(input[i]))
  {
    var lower := LowerAsciiString(input);
    var kept := Erase(lower, NotSlugOrSpace);
    EraseKeeps(lower);
    TrimEmptyIff(kept);
    if forall i :: 0 <= i < |input| ==> !SlugChar(LowerAscii(input[i])) {
      EraseNoSlugChar(lower);
    } else {
      var i :| 0 <= i < |input| && SlugChar(LowerAscii(input[i]));
      EraseKeepsSlugChar(lower, i);
    }
  }

  lemma {:induction false} EraseNoSlugChar(s: string)
    requires forall i :: 0 <= i < |s| ==> !SlugChar(s[i])
    ensures AllSpace(Erase(s, NotSlugOrSpace))
  {
    if s != [] {
      EraseNoSlugChar(s[1..]);
      var head := if NotSlugOrSpace(s[0]) then [] else [s[0]];
      var r := Erase(s, NotSlugOrSpace);
      forall k | 0 <= k < |r| ensures IsSpace(r[k]) {
        if k >= |head| {
          assert r[k] == Erase(s[1..], NotSlugOrSpace)[k - |head|];
        }
      }
    }
  }

  lemma {:induction false} EraseKeepsSlugChar(s: string, i: nat)
    requires i < |s| && SlugChar(s[i])
    ensures !AllSpace(Erase(s, NotSlugOrSpace))
  {
    if i == 0 {
      assert Erase(s, NotSlugOrSpace)[0] == s[0];
    } else {
      EraseKeepsSlugChar(s[1..], i - 1);
      var head := if NotSlugOrSpace(s[0]) then [] else [s[0]];
      var tail := Erase(s[1..], NotSlugOrSpace);
      var k :| 0 <= k < |tail| && !IsSpace(tail[k]);
      assert Erase(s, NotSlugOrSpace)[|head| + k] == tail[k];
    }
  }

  /** A lower-case ASCII letter or a digit: what survives `slugify` apart
      from the hyphens. */
  predicate LowerAlnum(c: char) { 'a' <= c <= 'z' || '0' <= c <= '9' }

  predicate NotLowerAlnum(c: char) { !LowerAlnum(c) }

  /** The slug keeps every letter and digit of the input, lower-cased and in
      order, and nothing else but hyphens. */
  lemma SlugifyKeepsAlnum(input: string)
    ensures Erase(Slugify(input), IsHyphen) == Erase(LowerAsciiString(input), NotLowerAlnum)
  {
    var lower := LowerAsciiString(input);
    var kept := Erase(lower, NotSlugOrSpace);
    EraseKeeps(lower);
    var trimmed := Trim(kept);
    TrimKeepsSlugOrSpace(kept);
    var hyphenated := HyphenateSpaces(trimmed);
    EraseNested(lower, NotSlugOrSpace, NotLowerAlnum);
    TrimErase(kept, NotLowerAlnum);
    ReplaceRunsErase(trimmed, IsSpace, '-', false, NotLowerAlnum);
    ReplaceRunsErase(hyphenated, IsHyphen, '-', false, NotLowerAlnum);
    EraseSameOn(Slugify(input), IsHyphen, NotLowerAlnum);
  }

  /** Two words of letters and digits with whitespace between them are
      joined by one hyphen. */
  lemma SlugifyJoinsWords(w1: string, gap: string, w2: string)
    requires w1 != [] && w2 != [] && gap != [] && AllSpace(gap)
    requires forall i :: 0 <= i < |w1| ==> LowerAlnum(w1[i])
    requires forall i :: 0 <= i < |w2| ==> LowerAlnum(w2[i])
    ensures Slugify(w1 + gap + w2) == w1 + "-" + w2
  {
    var s := w1 + gap + w2;
    var joined := w1 + "-" + w2;
    WordsSurviveCleaning(w1, gap, w2);
    WordsHyphenated(w1, gap, w2);
    JoinedIsSlug(w1, w2);
    ReplaceRunsSingleHyphens(joined, false);
  }

  lemma WordsSurviveCleaning(w1: string, gap: string, w2: string)
    requires w1 != [] && w2 != [] && AllSpace(gap)
    requires forall i :: 0 <= i < |w1| ==> LowerAlnum(w1[i])
    requires forall i :: 0 <= i < |w2| ==> LowerAlnum(w2[i])
    ensures Trim(Erase(LowerAsciiString(w1 + gap + w2), NotSlugOrSpace)) == w1 + gap + w2
  {
    var s := w1 + gap + w2;
    WordsChars(w1, gap, w2);
    forall i | 0 <= i < |s| ensures LowerAscii(s[i]) == s[i] && !NotSlugOrSpace(s[i]) {
      CleanCharFixed(s[i]);
    }
    assert LowerAsciiString(s) == s;
    EraseKeepsAll(s, NotSlugOrSpace);
    assert NoEdgeSpace(s) by {
      assert s[0] == w1[0] && s[|s| - 1] == w2[|w2| - 1];
      CleanCharFixed(w1[0]);
      CleanCharFixed(w2[|w2| - 1]);
    }
    TrimNoEdgeSpace(s);
  }

  /** A letter, a digit or whitespace. */
  predicate CleanChar(c: char) { LowerAlnum(c) || IsSpace(c) }

  lemma CleanCharFixed(c: char)
    requires CleanChar(c)
    ensures LowerAscii(c) == c && !NotSlugOrSpace(c)
    ensures LowerAlnum(c) ==> !IsSpace(c)
  {
  }

  lemma WordsChars(w1: string, gap: string, w2: string)
    requires AllSpace(gap)
    requires forall i :: 0 <= i < |w1| ==> LowerAlnum(w1[i])
    requires forall i :: 0 <= i < |w2| ==> LowerAlnum(w2[i])
    ensures forall i :: 0 <= i < |w1 + gap + w2| ==> CleanChar((w1 + gap + w2)[i])
  {
    var s := w1 + gap + w2;
    forall i | 0 <= i < |s| ensures CleanChar(s[i]) {
      if i < |w1| { assert s[i] == w1[i]; }
      else if i < |w1| + |gap| { assert s[i] == gap[i - |w1|]; }
      else { assert s[i] == w2[i - |w1| - |gap|]; }
    }
  }

  lemma WordsHyphenated(w1: string, gap: string, w2: string)
    requires w1 != [] && w2 != [] && gap != [] && AllSpace(gap)
    requires forall i :: 0 <= i < |w1| ==> LowerAlnum(w1[i])
    requires forall i :: 0 <= i < |w2| ==> LowerAlnum(w2[i])
    ensures ReplaceRuns(w1 + gap + w2, IsSpace, '-', false) == w1 + "-" + w2
  {
    ReplaceRunsSplit(w1, gap, w2, IsSpace, '-', false);
    ReplaceRunsNoRun(w1, IsSpace, '-');
    ReplaceRunsNoRun(w2, IsSpace, '-');
  }

  lemma JoinedIsSlug(w1: string, w2: string)
    requires forall i :: 0 <= i < |w1| ==> LowerAlnum(w1[i])
    requires forall i :: 0 <= i < |w2| ==> LowerAlnum(w2[i])
    ensures IsSlug(w1 + "-" + w2)
  {
    var joined := w1 + "-" + w2;
    forall i | 0 <= i < |joined| - 1 ensures !(joined[i] == '-' && joined[i + 1] == '-') {
      if i < |w1| { assert joined[i] == w1[i]; }
      else { assert joined[i + 1] == w2[i - |w1|]; }
    }
    forall i | 0 <= i < |joined| ensures SlugChar(joined[i]) {
      if i < |w1| { assert joined[i] == w1[i]; }
      else if i > |w1| { assert joined[i] == w2[i - |w1| - 1]; }
    }
  }

  lemma {:induction false} EraseNested(s: string, d1: char -> bool, d2: char -> bool)
    requires forall ch :: d1(ch) ==> d2(ch)
    ensures Erase(Erase(s, d1), d2) == Erase(s, d2)
  {
    if s != [] {
      EraseNested(s[1..], d1, d2);
      var head := if d1(s[0]) then [] else [s[0]];
      EraseAppend(head, Erase(s[1..], d1), d2);
    }
  }

  lemma {:induction false} EraseSameOn(s: string, d1: char -> bool, d2: char -> bool)
    requires forall i :: 0 <= i < |s| ==> (d1(s[i]) <==> d2(s[i]))
    ensures Erase(s, d1) == Erase(s, d2)
  {
    if s != [] {
      assert forall i :: 0 <= i < |s[1..]| ==> s[1..][i] == s[i + 1];
      EraseSameOn(s[1..], d1, d2);
    }
  }

  /** Trimming removes only whitespace, which `drop` erases anyway. */
  lemma TrimErase(s: string, drop: char -> bool)
    requires forall ch :: IsSpace(ch) ==> drop(ch)
    ensures Erase(Trim(s), drop) == Erase(s, drop)
  {
    var i := Lead(s);
    var t := Trim(s);
    TrimSpan(s);
    assert s == s[..i] + t + s[i + |t|..];
    AllSpaceErased(s[..i], drop);
    AllSpaceErased(s[i + |t|..], drop);
    EraseBetween(s[..i], t, s[i + |t|..], drop);
  }

  lemma AllSpaceErased(s: string, drop: char -> bool)
    requires forall ch :: IsSpace(ch) ==> drop(ch)
    requires AllSpace(s)
    ensures Erase(s, drop) == []
  {
    EraseAllDropped(s, drop);
  }

  lemma EraseBetween(x: string, t: string, y: string, drop: char -> bool)
    requires Erase(x, drop) == [] && Erase(y, drop) == []
    ensures Erase(x + t + y, drop) == Erase(t, drop)
  {
    EraseAppend(x + t, y, drop);
    EraseAppend(x, t, drop);
  }

  /** A blank title or slug field gives the empty slug. */
  lemma SlugifyBlank(input: string)
    requires AllSpace(input)
    ensures Slugify(input) == []
  {
    SlugifyEmptyIff(input);
  }

  // ---------------------------------------------------------------------
  // parseList, readString, resolveReturnTo, withQuery

  function TrimAll(items: seq<string>): (r: seq<string>)
    ensures |r| == |items|
    ensures forall k :: 0 <= k < |r| ==> r[k] == Trim(items[k])
  {
    seq(|items|, k requires 0 <= k < |items| => Trim(items[k]))
  }

  /** `parseList`: a missing or empty input gives no items; otherwise the
      comma-separated items, trimmed, without the empty ones. */
  function ParseList(input: Option<string>): (r: seq<string>)
    ensures input.None? || input.value == "" ==> r == []
    ensures input.Some? ==> r == NonEmpty(TrimAll(Split(input.value, ',')))
    ensures forall k :: 0 <= k < |r| ==> r[k] != [] && NoEdgeSpace(r[k]) && ',' !in r[k]
  {
    if input.None? || input.value == "" then []
    else
      var pieces := Split(input.value, ',');
      forall k | 0 <= k < |pieces| ensures ',' !in Trim(pieces[k]) {
        if ',' in Trim(pieces[k]) { TrimSubset(pieces[k], ','); }
      }
      NonEmpty(TrimAll(pieces))
  }

  /** The item before the first comma comes first, trimmed, unless it is
      blank; the rest of the list is the list of what follows the comma. */
  lemma ParseListCons(head: string, tail: string)
    requires ',' !in head
    ensures ParseList(Some(head + [','] + tail)) ==
            (if Trim(head) == [] then [] else [Trim(head)]) + ParseList(Some(tail))
  {
    SplitPrefix(head, tail, ',');
    NonEmptyTrimCons(head, Split(tail, ','));
  }

  /** Trimming and dropping the blank items, one item at a time. */
  lemma NonEmptyTrimCons(head: string, rest: seq<string>)
    ensures NonEmpty(TrimAll([head] + rest)) ==
            (if Trim(head) == [] then [] else [Trim(head)]) + NonEmpty(TrimAll(rest))
  {
    TrimAllCons(head, rest);
    NonEmptyAppend([Trim(head)], TrimAll(rest));
  }

  lemma TrimAllCons(head: string, rest: seq<string>)
    ensures TrimAll([head] + rest) == [Trim(head)] + TrimAll(rest)
  {
    var all := TrimAll([head] + rest);
    var split := [Trim(head)] + TrimAll(rest);
    forall k | 0 <= k < |all| ensures all[k] == split[k] {
      if k > 0 { assert ([head] + rest)[k] == rest[k - 1]; }
    }
  }

  /** Text without a comma is one item, trimmed, or none when it is blank. */
  lemma ParseListOne(s: string)
    requires ',' !in s
    ensures ParseList(Some(s)) == if Trim(s) == [] then [] else [Trim(s)]
  {
    SplitNoSep(s, ',');
    NonEmptyTrimCons(s, []);
    assert [s] + [] == [s];
  }

  /** Items that are already clean come back from their comma-joined text. */
  lemma ParseListOfJoin(items: seq<string>)
    requires forall k :: 0 <= k < |items| ==> items[k] != [] && NoEdgeSpace(items[k]) && ',' !in items[k]
    ensures ParseList(Some(Join(items, ','))) == items
  {
    if items != [] {
      JoinStartsWithFirst(items, ',');
      SplitJoin(items, ',');
      TrimAllClean(items);
      NonEmptyKeepsAll(items);
    }
  }

  lemma JoinStartsWithFirst(items: seq<string>, sep: char)
    requires items != [] && items[0] != []
    ensures Join(items, sep) != []
  {
    if |items| > 1 {
      assert |Join(items, sep)| >= |items[0]|;
    }
  }

  lemma TrimAllClean(items: seq<string>)
    requires forall k :: 0 <= k < |items| ==> NoEdgeSpace(items[k])
    ensures TrimAll(items) == items
  {
    forall k | 0 <= k < |items| ensures Trim(items[k]) == items[k] {
      TrimNoEdgeSpace(items[k]);
    }
  }

  /** `readString`: the entry if it is a string, else "". */
  function ReadString(form: Form, key: string): string {
    if key in form then form[key] else ""
  }

  /** `formData.get(key)` as zod sees it: `None` for null or a file. */
  function FormValue(form: Form, key: string): Option<string> {
    if key in form then Some(form[key]) else None
  }

  /** `resolveReturnTo`: the trimmed `returnTo` entry if it is an admin
      path, otherwise the fallback. */
  function ResolveReturnTo(form: Form, fallback: string): (r: string)
    ensures r == fallback || (StartsWith(r, "/admin") && NoEdgeSpace(r))
    ensures ("returnTo" in form && StartsWith(Trim(form["returnTo"]), "/admin")) ==>
              r == Trim(form["returnTo"])
    ensures !("returnTo" in form && StartsWith(Trim(form["returnTo"]), "/admin")) ==>
              r == fallback
  {
    if "returnTo" !in form then fallback
    else
      var trimmed := Trim(form["returnTo"]);
      if StartsWith(trimmed, "/admin") then trimmed else fallback
  }

  /** `withQuery`: the query is appended after `&` when the path already
      has a query string and after `?` otherwise. */
  function WithQuery(pathname: string, query: string): (r: string)
    ensures |r| == |pathname| + 1 + |query|
    ensures r[..|pathname|] == pathname && r[|pathname| + 1..] == query
    ensures r[|pathname|] == '&' <==> '?' in pathname
    ensures '?' in r
  {
    if '?' in pathname then pathname + "&" + query else pathname + "?" + query
  }

  // ---------------------------------------------------------------------
  // Number.parseInt(text, 10)

  predicate IsDigit(c: char) { '0' <= c <= '9' }

  /** The length of the run of decimal digits at the start of `s`. */
  function LeadingDigits(s: string): (n: nat)
    ensures n <= |s|
    ensures forall i :: 0 <= i < n ==> IsDigit(s[i])
    ensures n < |s| ==> !IsDigit(s[n])
  {
    if s != [] && IsDigit(s[0]) then 1 + LeadingDigits(s[1..]) else 0
  }

  function DigitsValue(ds: string): nat
    requires forall i :: 0 <= i < |ds| ==> IsDigit(ds[i])
  {
    if ds == [] then 0
    else
      assert IsDigit(ds[|ds| - 1]);
      DigitsValue(ds[..|ds| - 1]) * 10 + (ds[|ds| - 1] as int - '0' as int)
  }

  /** `Number.parseInt(text, 10)`: leading whitespace, an optional sign,
      then as many decimal digits as there are; `None` stands for `NaN`
      (no digit). The result is always an integer when it is a number. */
  function ParseInt(text: string): (r: Option<int>)
  {
    var t := TrimStart(text);
    var negative := t != [] && t[0] == '-';
    var body := if t != [] && (t[0] == '-' || t[0] == '+') then t[1..] else t;
    var n := LeadingDigits(body);
    if n == 0 then None
    else
      var v: int := DigitsValue(body[..n]);
      Some(if negative then -v else v)
  }

  /** The decimal text of a natural number, as `String(n)` writes it. */
  function DecimalString(n: nat): (s: string)
    ensures s != [] && forall i :: 0 <= i < |s| ==> IsDigit(s[i])
    ensures DigitsValue(s) == n
  {
    var d := ['0' + (n % 10) as char];
    if n < 10 then
      assert DigitsValue(d) == DigitsValue([]) * 10 + n;
      d
    else
      var s := DecimalString(n / 10) + d;
      assert s[..|s| - 1] == DecimalString(n / 10);
      s
  }

  /** The text of an index, as the forms render it. */
  function IndexText(i: int): string {
    if i < 0 then "-" + DecimalString(-i) else DecimalString(i)
  }

  /** `parseInt` reads back every index the forms render. */
  lemma ParseIntOfIndexText(i: int)
    ensures ParseInt(IndexText(i)) == Some(i)
  {
    var s := IndexText(i);
    assert !IsSpace(s[0]);
    assert TrimStart(s) == s;
    var body := if i < 0 then DecimalString(-i) else DecimalString(i);
    assert s == (if i < 0 then "-" + body else body);
    if i < 0 {
      assert s[1..] == body;
    }
    assert LeadingDigits(body) == |body| by { LeadingDigitsAll(body); }
    assert body[..|body|] == body;
  }

  lemma {:induction false} LeadingDigitsAll(s: string)
    requires forall i :: 0 <= i < |s| ==> IsDigit(s[i])
    ensures LeadingDigits(s) == |s|
  {
    if s != [] {
      LeadingDigitsAll(s[1..]);
    }
  }

  /** A missing or digit-free `index` entry is `NaN`. */
  lemma ParseIntNoDigits(text: string)
    requires forall i :: 0 <= i < |text| ==> !IsDigit(text[i])
    ensures ParseInt(text) == None
  {
    var t := TrimStart(text);
    assert forall i :: 0 <= i < |t| ==> t[i] == text[|text| - |t| + i];
  }

  // ---------------------------------------------------------------------
  // The zod schemas. `z.string().trim().min(n)` trims, then checks the
  // length; `.optional()` accepts only `undefined`, so a null entry fails.

  /** `z.string().trim().min(n)` on a form entry. */
  function TrimmedMin(v: Option<string>, n: nat): (r: Option<string>)
    ensures r.Some? <==> v.Some? && |Trim(v.value)| >= n
    ensures r.Some? ==> r.value == Trim(v.value) && NoEdgeSpace(r.value) && |r.value| >= n
  {
    if v.Some? && |Trim(v.value)| >= n then Some(Trim(v.value)) else None
  }

  /** `z.union([z.url(), z.literal("")]).optional()` (and the same with
      `z.email()`) on a form entry; the format check is a parameter. */
  function FormatOrEmpty(v: Option<string>, valid: string -> bool): (r: Option<string>)
    ensures r.Some? <==> v.Some? && (v.value == "" || valid(v.value))
    ensures r.Some? ==> r == v
  {
    if v.Some? && (v.value == "" || valid(v.value)) then v else None
  }

  /** `value || null` / `value || undefined` on a string. */
  function NonEmptyOr(v: string): (r: Option<string>)
    ensures r.Some? <==> v != ""
    ensures r.Some? ==> r.value == v
  {
    if v == "" then None else Some(v)
  }

  datatype PostInput = PostInput(
    title: string, slug: string, excerpt: string, content: string,
    coverImage: string, tags: string)

  /** `postSchema`: title of 3, excerpt of 10 and content of 20 characters
      after trimming; slug and tags present (possibly empty) and trimmed;
      cover image a URL or empty, untrimmed. */
  function ParsePostForm(form: Form, isUrl: string -> bool): (r: Option<PostInput>)
    ensures r.Some? <==>
      && "title" in form && |Trim(form["title"])| >= 3
      && "slug" in form
      && "excerpt" in form && |Trim(form["excerpt"])| >= 10
      && "content" in form && |Trim(form["content"])| >= 20
      && "coverImage" in form && (form["coverImage"] == "" || isUrl(form["coverImage"]))
      && "tags" in form
    ensures r.Some? ==>
      && r.value.title == Trim(form["title"]) && r.value.slug == Trim(form["slug"])
      && r.value.excerpt == Trim(form["excerpt"]) && r.value.content == Trim(form["content"])
      && r.value.coverImage == form["coverImage"] && r.value.tags == Trim(form["tags"])
  {
    var title := TrimmedMin(FormValue(form, "title"), 3);
    var slug := TrimmedMin(FormValue(form, "slug"), 0);
    var excerpt := TrimmedMin(FormValue(form, "excerpt"), 10);
    var content := TrimmedMin(FormValue(form, "content"), 20);
    var coverImage := FormatOrEmpty(FormValue(form, "coverImage"), isUrl);
    var tags := TrimmedMin(FormValue(form, "tags"), 0);
    if title.None? || slug.None? || excerpt.None? || content.None? || coverImage.None? || tags.None? then None
    else Some(PostInput(title.value, slug.value, excerpt.value, content.value, coverImage.value, tags.value))
  }

  datatype HeroInput = HeroInput(
    siteTitle: string, name: string, role: string, bio: string,
    homepageBadge: string, primaryCtaLabel: string, secondaryCtaLabel: string)

  /** `heroSchema`: every field at least 2 characters after trimming, the
      bio at least 16. */
  function ParseHeroForm(form: Form): (r: Option<HeroInput>)
    ensures r.Some? <==>
      && |Trim(ReadString(form, "siteTitle"))| >= 2
      && "name" in form && |Trim(form["name"])| >= 2
      && "role" in form && |Trim(form["role"])| >= 2
      && "bio" in form && |Trim(form["bio"])| >= 16
      && |Trim(ReadString(form, "homepageBadge"))| >= 2
      && |Trim(ReadString(form, "primaryCtaLabel"))| >= 2
      && |Trim(ReadString(form, "secondaryCtaLabel"))| >= 2
    ensures r.Some? ==>
      && r.value.name == Trim(form["name"]) && r.value.role == Trim(form["role"])
      && r.value.bio == Trim(form["bio"])
      && r.value.siteTitle == Trim(ReadString(form, "siteTitle"))
      && r.value.homepageBadge == Trim(ReadString(form, "homepageBadge"))
      && r.value.primaryCtaLabel == Trim(ReadString(form, "primaryCtaLabel"))
      && r.value.secondaryCtaLabel == Trim(ReadString(form, "secondaryCtaLabel"))
  {
    var siteTitle := TrimmedMin(Some(ReadString(form, "siteTitle")), 2);
    var name := TrimmedMin(FormValue(form, "name"), 2);
    var role := TrimmedMin(FormValue(form, "role"), 2);
    var bio := TrimmedMin(FormValue(form, "bio"), 16);
    var badge := TrimmedMin(Some(ReadString(form, "homepageBadge")), 2);
    var primary := TrimmedMin(Some(ReadString(form, "primaryCtaLabel")), 2);
    var secondary := TrimmedMin(Some(ReadString(form, "secondaryCtaLabel")), 2);
    if siteTitle.None? || name.None? || role.None? || bio.None? || badge.None? || primary.None? || secondary.None? then None
    else Some(HeroInput(siteTitle.value, name.value, role.value, bio.value, badge.value, primary.value, secondary.value))
  }

  datatype MetaInput = MetaInput(school: string, location: string, email: string)

  /** `metaSchema`: school and location present and trimmed, e-mail an
      address or empty, untrimmed. */
  function ParseMetaForm(form: Form, isEmail: string -> bool): (r: Option<MetaInput>)
    ensures r.Some? <==> "school" in form && "location" in form && "email" in form
                         && (form["email"] == "" || isEmail(form["email"]))
    ensures r.Some? ==> r.value == MetaInput(Trim(form["school"]), Trim(form["location"]), form["email"])
  {
    var school := TrimmedMin(FormValue(form, "school"), 0);
    var location := TrimmedMin(FormValue(form, "location"), 0);
    var email := FormatOrEmpty(FormValue(form, "email"), isEmail);
    if school.None? || location.None? || email.None? then None
    else Some(MetaInput(school.value, location.value, email.value))
  }

  /** `skillSchema`: a skill of at least one character after trimming. */
  function ParseSkillForm(form: Form): (r: Option<string>)
    ensures r.Some? <==> "skill" in form && Trim(form["skill"]) != []
    ensures r.Some? ==> r.value == Trim(form["skill"]) && r.value != [] && NoEdgeSpace(r.value)
  {
    TrimmedMin(FormValue(form, "skill"), 1)
  }

  datatype ProjectInput = ProjectInput(name: string, description: string, url: string)

  /** `projectSchema`: a name of 2 and a description of 8 characters after
      trimming, and a URL or empty, untrimmed. */
  function ParseProjectForm(form: Form, isUrl: string -> bool): (r: Option<ProjectInput>)
    ensures r.Some? <==>
      && "name" in form && |Trim(form["name"])| >= 2
      && "description" in form && |Trim(form["description"])| >= 8
      && "url" in form && (form["url"] == "" || isUrl(form["url"]))
    ensures r.Some? ==> r.value == ProjectInput(Trim(form["name"]), Trim(form["description"]), form["url"])
  {
    var name := TrimmedMin(FormValue(form, "name"), 2);
    var description := TrimmedMin(FormValue(form, "description"), 8);
    var url := FormatOrEmpty(FormValue(form, "url"), isUrl);
    if name.None? || description.None? || url.None? then None
    else Some(ProjectInput(name.value, description.value, url.value))
  }

  /** The one-field section title schemas: at least 2 characters after
      trimming the `readString` value. */
  function ParseTitleField(form: Form, key: string): (r: Option<string>)
    ensures r.Some? <==> |Trim(ReadString(form, key))| >= 2
    ensures r.Some? ==> r.value == Trim(ReadString(form, key))
  {
    TrimmedMin(Some(ReadString(form, key)), 2)
  }
}
