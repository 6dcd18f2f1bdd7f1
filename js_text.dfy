/** String primitives with ECMAScript semantics: what the source's regular
    expressions call `\s`, what `String.prototype.trim` removes, `split` on a
    single separator and `join`. Strings are sequences of code points. */
module JsText {

  /** ECMAScript WhiteSpace and LineTerminator code points. `\s` in a regular
      expression and `trim()` use exactly this set. */
  predicate IsSpace(c: char) {
    || c == '\t' || c == '\n' || c == '\U{000B}' || c == '\U{000C}' || c == '\r'
    || c == ' ' || c == '\U{00A0}' || c == '\U{1680}' || ('\U{2000}' <= c <= '\U{200A}')
    || c == '\U{2028}' || c == '\U{2029}' || c == '\U{202F}' || c == '\U{205F}'
    || c == '\U{3000}' || c == '\U{FEFF}'
  }

  predicate AllSpace(s: string) {
    forall i :: 0 <= i < |s| ==> IsSpace(s[i])
  }

  predicate NoSpace(s: string) {
    forall i :: 0 <= i < |s| ==> !IsSpace(s[i])
  }

  /** Neither the first nor the last character is whitespace. */
  predicate NoEdgeSpace(s: string) {
    s == [] || (!IsSpace(s[0]) && !IsSpace(s[|s| - 1]))
  }

  predicate StartsWith(s: string, prefix: string) {
    |prefix| <= |s| && s[..|prefix|] == prefix
  }

  /** `s.trimStart()`; `TrimStartSpan` says that what it drops is whitespace. */
  function TrimStart(s: string): (r: string)
    ensures |r| <= |s| && r == s[|s| - |r|..]
    ensures r == [] || !IsSpace(r[0])
  {
    if s != [] && IsSpace(s[0]) then TrimStart(s[1..]) else s
  }

  lemma {:induction false} TrimStartSpan(s: string)
    ensures AllSpace(s[..|s| - |TrimStart(s)|])
  {
    if s != [] && IsSpace(s[0]) {
      var r := TrimStart(s[1..]);
      TrimStartSpan(s[1..]);
      assert s[..|s| - |r|] == [s[0]] + s[1..][..|s| - 1 - |r|];
    }
  }

  /** `s.trimEnd()`; `TrimEndSpan` says that what it drops is whitespace. */
  function TrimEnd(s: string): (r: string)
    ensures |r| <= |s| && r == s[..|r|]
    ensures r == [] || !IsSpace(r[|r| - 1])
  {
    if s != [] && IsSpace(s[|s| - 1]) then TrimEnd(s[..|s| - 1]) else s
  }

  lemma {:induction false} TrimEndSpan(s: string)
    ensures AllSpace(s[|TrimEnd(s)|..])
  {
    if s != [] && IsSpace(s[|s| - 1]) {
      var r := TrimEnd(s[..|s| - 1]);
      TrimEndSpan(s[..|s| - 1]);
      assert s[|r|..] == s[..|s| - 1][|r|..] + [s[|s| - 1]];
    }
  }

  /** `s.trim()`: the result is a slice of `s` that neither starts nor ends
      with whitespace; `TrimSpan` says that only whitespace is dropped. */
  function Trim(s: string): (r: string)
    ensures NoEdgeSpace(r)
    ensures var i := Lead(s); i + |r| <= |s| && r == s[i..i + |r|]
  {
    TrimEnd(TrimStart(s))
  }

  /** What `Trim` drops at either end is whitespace. */
  lemma TrimSpan(s: string)
    ensures var i := Lead(s); AllSpace(s[..i]) && AllSpace(s[i + |Trim(s)|..])
  {
    var t := TrimStart(s);
    var r := TrimEnd(t);
    TrimStartSpan(s);
    TrimEndSpan(t);
    assert s[|s| - |t| + |r|..] == t[|r|..];
  }

  /** The number of leading whitespace characters. */
  function Lead(s: string): nat {
    |s| - |TrimStart(s)|
  }

  /** A string with no whitespace at its ends is its own trim. */
  lemma {:induction false} TrimNoEdgeSpace(s: string)
    requires NoEdgeSpace(s)
    ensures Trim(s) == s
  {
  }

  /** Trimming yields the empty string exactly when the string is all whitespace. */
  lemma TrimEmptyIff(s: string)
    ensures Trim(s) == [] <==> AllSpace(s)
  {
    var r := Trim(s);
    var i := Lead(s);
    TrimSpan(s);
    if r == [] {
      forall k | 0 <= k < |s| ensures IsSpace(s[k]) {
        assert s[..i][k] == s[k];
      }
    } else {
      assert s[i] == r[0];
    }
  }

  lemma AllSpaceTrim(s: string)
    requires AllSpace(s)
    ensures Trim(s) == []
  {
    TrimEmptyIff(s);
  }

  /** Trimming twice is trimming once. */
  lemma TrimIdempotent(s: string)
    ensures Trim(Trim(s)) == Trim(s)
  {
    TrimNoEdgeSpace(Trim(s));
  }

  /** A string without any whitespace is its own trim. */
  lemma TrimNoSpace(s: string)
    requires NoSpace(s)
    ensures Trim(s) == s
  {
    TrimNoEdgeSpace(s);
  }

  /** Characters of the trim occur in the original. */
  lemma TrimSubset(s: string, c: char)
    requires c in Trim(s)
    ensures c in s
  {
    var r := Trim(s);
    var i := Lead(s);
    var k :| 0 <= k < |r| && r[k] == c;
    assert r == s[i..i + |r|];
    assert s[i + k] == c;
  }

  /** ASCII-only `toLowerCase` of one character. */
  function LowerAscii(c: char): (r: char)
    ensures 'A' <= c <= 'Z' ==> 'a' <= r <= 'z'
    ensures !('A' <= c <= 'Z') ==> r == c
  {
    if 'A' <= c <= 'Z' then (c as int - 'A' as int + 'a' as int) as char else c
  }

  /** ASCII-only `toUpperCase` of one character. */
  function UpperAscii(c: char): (r: char)
    ensures 'a' <= c <= 'z' ==> 'A' <= r <= 'Z'
    ensures !('a' <= c <= 'z') ==> r == c
  {
    if 'a' <= c <= 'z' then (c as int - 'a' as int + 'A' as int) as char else c
  }

  function LowerAsciiString(s: string): (r: string)
    ensures |r| == |s|
    ensures forall i :: 0 <= i < |s| ==> r[i] == LowerAscii(s[i])
  {
    seq(|s|, i requires 0 <= i < |s| => LowerAscii(s[i]))
  }

  /** `s.split(sep)` for a one-character separator: the pieces between
      separators, always at least one (`"".split(",")` is `[""]`). */
  function Split(s: string, sep: char): (r: seq<string>)
    ensures |r| >= 1
    ensures forall k :: 0 <= k < |r| ==> sep !in r[k]
  {
    if s == [] then [[]]
    else
      var rest := Split(s[1..], sep);
      if s[0] == sep then [[]] + rest else [[s[0]] + rest[0]] + rest[1..]
  }

  /** `pieces.join(sep)` */
  function Join(pieces: seq<string>, sep: char): string {
    if pieces == [] then []
    else if |pieces| == 1 then pieces[0]
    else pieces[0] + [sep] + Join(pieces[1..], sep)
  }

  /** Splitting undoes joining when no piece contains the separator. */
  lemma {:induction false} SplitJoin(pieces: seq<string>, sep: char)
    requires |pieces| >= 1
    requires forall k :: 0 <= k < |pieces| ==> sep !in pieces[k]
    ensures Split(Join(pieces, sep), sep) == pieces
  {
    if |pieces| == 1 {
      SplitNoSep(pieces[0], sep);
    } else {
      SplitJoin(pieces[1..], sep);
      SplitPrefix(pieces[0], Join(pieces[1..], sep), sep);
      assert Join(pieces, sep) == pieces[0] + [sep] + Join(pieces[1..], sep);
      assert [pieces[0]] + pieces[1..] == pieces;
    }
  }

  /** A string without the separator splits into itself. */
  lemma {:induction false} SplitNoSep(s: string, sep: char)
    requires sep !in s
    ensures Split(s, sep) == [s]
  {
    if s != [] {
      SplitNoSep(s[1..], sep);
      assert [s[0]] + s[1..] == s;
    }
  }

  /** A separator-free head followed by a separator is split off as the first piece. */
  lemma {:induction false} SplitPrefix(head: string, tail: string, sep: char)
    requires sep !in head
    ensures Split(head + [sep] + tail, sep) == [head] + Split(tail, sep)
  {
    if head == [] {
      assert head + [sep] + tail == [sep] + tail;
      assert ([sep] + tail)[1..] == tail;
    } else {
      var s := head + [sep] + tail;
      assert s[1..] == head[1..] + [sep] + tail;
      SplitPrefix(head[1..], tail, sep);
      assert [head[0]] + head[1..] == head;
    }
  }

  /** Joining undoes splitting. */
  lemma {:induction false} JoinSplit(s: string, sep: char)
    ensures Join(Split(s, sep), sep) == s
  {
    if s != [] {
      JoinSplit(s[1..], sep);
      var rest := Split(s[1..], sep);
      if s[0] == sep {
        assert Join([[]] + rest, sep) == [] + [sep] + Join(rest, sep);
      } else {
        var r := [[s[0]] + rest[0]] + rest[1..];
        if |rest| == 1 {
          assert Join(rest, sep) == rest[0];
        } else {
          assert Join(rest, sep) == rest[0] + [sep] + Join(rest[1..], sep);
          assert r[1..] == rest[1..];
        }
      }
    }
  }

  /** A character absent from the text is absent from every piece. */
  lemma {:induction false} SplitKeepsOut(s: string, sep: char, c: char)
    requires c !in s
    ensures forall k :: 0 <= k < |Split(s, sep)| ==> c !in Split(s, sep)[k]
  {
    if s != [] {
      SplitKeepsOut(s[1..], sep, c);
    }
  }

  /** Joining introduces no character other than the separator. */
  lemma {:induction false} JoinKeepsOut(pieces: seq<string>, sep: char, c: char)
    requires c != sep
    requires forall k :: 0 <= k < |pieces| ==> c !in pieces[k]
    ensures c !in Join(pieces, sep)
  {
    if |pieces| > 1 {
      JoinKeepsOut(pieces[1..], sep, c);
    }
  }

  /** `items.filter(Boolean)` on strings: the empty strings are dropped. */
  function NonEmpty(items: seq<string>): (r: seq<string>)
    ensures |r| <= |items|
    ensures forall k :: 0 <= k < |r| ==> r[k] != [] && r[k] in items
    ensures forall k :: 0 <= k < |items| && items[k] != [] ==> items[k] in r
  {
    if items == [] then []
    else (if items[0] == [] then [] else [items[0]]) + NonEmpty(items[1..])
  }

  /** Filtering a list without empty strings leaves it as it is. */
  lemma {:induction false} NonEmptyKeepsAll(items: seq<string>)
    requires forall k :: 0 <= k < |items| ==> items[k] != []
    ensures NonEmpty(items) == items
  {
    if items != [] {
      NonEmptyKeepsAll(items[1..]);
      assert [items[0]] + items[1..] == items;
    }
  }

  /** Filtering keeps the order of the strings it keeps. */
  lemma {:induction false} NonEmptyAppend(a: seq<string>, b: seq<string>)
    ensures NonEmpty(a + b) == NonEmpty(a) + NonEmpty(b)
  {
    if a == [] {
      assert a + b == b;
    } else {
      assert (a + b)[1..] == a[1..] + b;
      NonEmptyAppend(a[1..], b);
    }
  }

  // ---- Erasure: a string with some characters removed ----

  /** `s` with every character satisfying `drop` removed. */
  function Erase(s: string, drop: char -> bool): (r: string)
    ensures |r| <= |s|
  {
    if s == [] then [] else (if drop(s[0]) then [] else [s[0]]) + Erase(s[1..], drop)
  }

  lemma {:induction false} EraseAppend(a: string, b: string, drop: char -> bool)
    ensures Erase(a + b, drop) == Erase(a, drop) + Erase(b, drop)
  {
    if a == [] {
      assert a + b == b;
    } else {
      assert (a + b)[1..] == a[1..] + b;
      EraseAppend(a[1..], b, drop);
    }
  }

  lemma {:induction false} EraseAllDropped(s: string, drop: char -> bool)
    requires forall i :: 0 <= i < |s| ==> drop(s[i])
    ensures Erase(s, drop) == []
  {
    if s != [] {
      EraseAllDropped(s[1..], drop);
    }
  }

  lemma EraseCons(c: char, x: string, drop: char -> bool)
    ensures Erase([c] + x, drop) == (if drop(c) then [] else [c]) + Erase(x, drop)
  {
    assert ([c] + x)[1..] == x;
  }

  /** Deleting a run of dropped characters does not change the erasure. */
  lemma EraseSplice(pre: string, gap: string, post: string, drop: char -> bool)
    requires forall i :: 0 <= i < |gap| ==> drop(gap[i])
    ensures Erase(pre + gap + post, drop) == Erase(pre + post, drop)
  {
    EraseAllDropped(gap, drop);
    EraseAppend(pre + gap, post, drop);
    EraseAppend(pre, gap, drop);
    EraseAppend(pre, post, drop);
  }


  /** Erasure is compatible with concatenation on both sides of an equation. */
  lemma EraseConcatEq(e1: string, x1: string, e2: string, x2: string, drop: char -> bool)
    requires Erase(e1, drop) == Erase(x1, drop) && Erase(e2, drop) == Erase(x2, drop)
    ensures Erase(e1 + e2, drop) == Erase(x1 + x2, drop)
  {
    EraseAppend(e1, e2, drop);
    EraseAppend(x1, x2, drop);
  }

  /** A text consumed in two parts, each emitted with the same erasure. */
  lemma EraseGlue(s: string, next: nat, emit: string, rest: string, drop: char -> bool)
    requires next <= |s|
    requires Erase(emit, drop) == Erase(s[..next], drop) && Erase(rest, drop) == Erase(s[next..], drop)
    ensures Erase(emit + rest, drop) == Erase(s, drop)
  {
    EraseConcatEq(emit, s[..next], rest, s[next..], drop);
    assert s[..next] + s[next..] == s;
  }

  /** A text consumed in two parts, each emitted without adding characters. */
  lemma MultisetGlue(s: string, next: nat, emit: string, rest: string)
    requires next <= |s|
    requires multiset(emit) <= multiset(s[..next]) && multiset(rest) <= multiset(s[next..])
    ensures multiset(emit + rest) <= multiset(s)
  {
    assert s[..next] + s[next..] == s;
  }
}
