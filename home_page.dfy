/** The list helpers of the home page: the school line split into entries,
    and the first four projects and posts shown apart from the rest. */
module HomePage {
  import opened Wrappers
  import opened JsText
  import opened AdminForms

  /** `value.split(/\r?\n|,/)`: the pieces between separators, where a
      separator is `\r\n`, a lone `\n` or `,` (a `\r` not followed by `\n`
      stays in its piece). */
  function SchoolPieces(s: string): (r: seq<string>)
    ensures |r| >= 1
    ensures forall k :: 0 <= k < |r| ==> ',' !in r[k] && '\n' !in r[k]
    decreases |s|
  {
    if s == [] then [[]]
    else if s[0] == ',' || s[0] == '\n' then [[]] + SchoolPieces(s[1..])
    else if s[0] == '\r' && |s| >= 2 && s[1] == '\n' then [[]] + SchoolPieces(s[2..])
    else
      var rest := SchoolPieces(s[1..]);
      [[s[0]] + rest[0]] + rest[1..]
  }

  /** `getSchoolList`: nothing for an absent or empty value; otherwise the
      pieces, trimmed, without the empty ones. */
  function SchoolList(value: Option<string>): (r: seq<string>)
    ensures value.None? || value.value == "" ==> r == []
    ensures value.Some? ==> r == NonEmpty(TrimAll(SchoolPieces(value.value)))
    ensures forall k :: 0 <= k < |r| ==> r[k] != [] && CleanEntry(r[k])
  {
    if value.None? then []
    else if value.value == "" then
      EmptyTextNoSchools();
      []
    else
      var pieces := SchoolPieces(value.value);
      TrimmedPiecesClean(pieces);
      NonEmptyKeeps(TrimAll(pieces));
      NonEmpty(TrimAll(pieces))
  }

  /** An entry as the home page lists it: trimmed, without separators. */
  predicate CleanEntry(x: string) {
    NoEdgeSpace(x) && ',' !in x && '\n' !in x
  }

  /** The empty text is one empty piece, which is dropped. */
  lemma EmptyTextNoSchools()
    ensures NonEmpty(TrimAll(SchoolPieces(""))) == []
  {
    assert SchoolPieces("") == [[]];
    assert Trim([]) == [];
    assert TrimAll([[]]) == [[]];
  }

  /** Trimming a piece adds no separator to it. */
  lemma TrimmedPiecesClean(pieces: seq<string>)
    requires forall k :: 0 <= k < |pieces| ==> ',' !in pieces[k] && '\n' !in pieces[k]
    ensures forall k :: 0 <= k < |TrimAll(pieces)| ==> CleanEntry(TrimAll(pieces)[k])
  {
    forall k | 0 <= k < |pieces| ensures ',' !in Trim(pieces[k]) && '\n' !in Trim(pieces[k]) {
      if ',' in Trim(pieces[k]) { TrimSubset(pieces[k], ','); }
      if '\n' in Trim(pieces[k]) { TrimSubset(pieces[k], '\n'); }
    }
  }

  /** Dropping the empty entries keeps every entry clean. */
  lemma NonEmptyKeeps(items: seq<string>)
    requires forall k :: 0 <= k < |items| ==> CleanEntry(items[k])
    ensures forall k :: 0 <= k < |NonEmpty(items)| ==> CleanEntry(NonEmpty(items)[k])
  {
    var r := NonEmpty(items);
    forall k | 0 <= k < |r| ensures CleanEntry(r[k]) {
      var j :| 0 <= j < |items| && items[j] == r[k];
    }
  }

  /** Without line breaks the split is the plain comma split. */
  lemma {:induction false} SchoolPiecesCommaOnly(s: string)
    requires '\n' !in s
    ensures SchoolPieces(s) == Split(s, ',')
    decreases |s|
  {
    if s != [] {
      SchoolPiecesCommaOnly(s[1..]);
    }
  }

  /** A school line without line breaks is read like the comma lists of
      the admin forms. */
  lemma SchoolListCommaOnly(value: string)
    requires '\n' !in value
    ensures SchoolList(Some(value)) == ParseList(Some(value))
  {
    SchoolPiecesCommaOnly(value);
  }

  /** Entries that are already clean come back from their comma-joined line. */
  lemma SchoolListOfJoin(items: seq<string>)
    requires forall k :: 0 <= k < |items| ==>
      items[k] != [] && NoEdgeSpace(items[k]) && ',' !in items[k] && '\n' !in items[k]
    ensures SchoolList(Some(Join(items, ','))) == items
  {
    JoinKeepsOut(items, ',', '\n');
    SchoolListCommaOnly(Join(items, ','));
    ParseListOfJoin(items);
  }

  /** Each of the three separators ends the piece before it, and a `\r\n`
      leaves no `\r` behind in that piece. */
  lemma {:induction false} SchoolPiecesSeparator(head: string, sep: string, tail: string)
    requires sep == "\r\n" || sep == "\n" || sep == ","
    requires ',' !in head && '\n' !in head && '\r' !in head
    ensures SchoolPieces(head + sep + tail) == [head] + SchoolPieces(tail)
    decreases |head|
  {
    var s := head + sep + tail;
    if head == [] {
      assert s == sep + tail;
      if sep == "\r\n" {
        assert s[2..] == tail;
      } else {
        assert s[1..] == tail;
      }
    } else {
      assert s[1..] == head[1..] + sep + tail;
      SchoolPiecesSeparator(head[1..], sep, tail);
      assert [head[0]] + head[1..] == head;
    }
  }

  /** The entry before the first separator comes first, trimmed, unless it
      is blank; the rest of the list is the list of what follows it. */
  lemma SchoolListCons(head: string, sep: string, tail: string)
    requires sep == "\r\n" || sep == "\n" || sep == ","
    requires ',' !in head && '\n' !in head && '\r' !in head
    ensures SchoolList(Some(head + sep + tail)) ==
            (if Trim(head) == [] then [] else [Trim(head)]) + SchoolList(Some(tail))
  {
    SchoolPiecesSeparator(head, sep, tail);
    SchoolListOfPieces(head + sep + tail);
    SchoolListOfPieces(tail);
    NonEmptyTrimCons(head, SchoolPieces(tail));
  }

  lemma SchoolListOfPieces(s: string)
    ensures SchoolList(Some(s)) == NonEmpty(TrimAll(SchoolPieces(s)))
  {
  }

  /** The first four entries, shown as featured. */
  function Featured<T>(xs: seq<T>): (r: seq<T>)
    ensures |r| == if |xs| < 4 then |xs| else 4
    ensures r == xs[..|r|]
  {
    if |xs| < 4 then xs else xs[..4]
  }

  /** The entries after the first four, shown under "more". */
  function More<T>(xs: seq<T>): (r: seq<T>)
    ensures Featured(xs) + r == xs
    ensures |xs| <= 4 <==> r == []
  {
    if |xs| < 4 then [] else xs[4..]
  }
}
