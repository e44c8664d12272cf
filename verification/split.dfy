/**
  `get_author_names`: split a raw author string at every match of the
  regular expression `,|\band\b`, then strip and lower-case every piece.

  The split runs on the raw string, before lower-casing, so only the
  lower-case whole word `and` separates names; `And` and `AND` do not.
  Empty pieces are kept.
 */
module AuthorSplit {
  import opened Text

  /** The alternative `\band\b` matches at position i of s. The word
      boundaries are judged against the whole string, not a suffix of it. */
  predicate AndAt(s: string, i: int) {
    && 0 <= i && i + 3 <= |s|
    && s[i] == 'a' && s[i + 1] == 'n' && s[i + 2] == 'd'
    && (i == 0 || !IsWordChar(s[i - 1]))
    && (i + 3 == |s| || !IsWordChar(s[i + 3]))
  }

  /** The pattern `,|\band\b` matches at position i of s. */
  predicate IsMatch(s: string, i: nat)
    requires i < |s|
  {
    s[i] == ',' || AndAt(s, i)
  }

  /** Length of the match starting at i, or 0 when there is none. The two
      alternatives begin with different characters, so at most one applies. */
  function MatchLen(s: string, i: nat): (n: nat)
    requires i < |s|
    ensures i + n <= |s|
    ensures n == 0 <==> !IsMatch(s, i)
    ensures n > 0 ==> s[i..i + n] == "," || s[i..i + n] == "and"
  {
    if s[i] == ',' then 1 else if AndAt(s, i) then 3 else 0
  }

  /** A piece of text holding no separator match when read on its own. */
  predicate NoSeparator(t: string) {
    forall j :: 0 <= j < |t| ==> !IsMatch(t, j)
  }

  /** The pieces between the matches, in input order, and the matched
      separator texts between them. */
  datatype Split = Split(pieces: seq<string>, separators: seq<string>)

  /** Glue pieces back together with the separators between them. */
  function Interleave(pieces: seq<string>, separators: seq<string>): string
    requires |pieces| == |separators| + 1
  {
    if separators == [] then pieces[0]
    else pieces[0] + separators[0] + Interleave(pieces[1..], separators[1..])
  }

  /** The scan of `re.split`: the current piece began at `start` and the
      search for the next match resumes at i. */
  function SplitFrom(s: string, start: nat, i: nat): (r: Split)
    requires start <= i <= |s|
    ensures |r.pieces| == |r.separators| + 1
    decreases |s| - i
  {
    if i == |s| then
      Split([s[start..]], [])
    else
      var n := MatchLen(s, i);
      if n == 0 then
        SplitFrom(s, start, i + 1)
      else
        var rest := SplitFrom(s, i + n, i + n);
        Split([s[start..i]] + rest.pieces, [s[i..i + n]] + rest.separators)
  }

  /** `re.split(r",|\band\b", s)` together with the separators it consumed. */
  function RawSplit(s: string): (r: Split)
    ensures |r.pieces| == |r.separators| + 1
  {
    SplitFrom(s, 0, 0)
  }

  /** Number of positions at or after i where the separator pattern matches. */
  function MatchCount(s: string, i: nat): nat
    requires i <= |s|
    decreases |s| - i
  {
    if i == |s| then 0 else (if IsMatch(s, i) then 1 else 0) + MatchCount(s, i + 1)
  }

  /** A name once it is stripped and lower-cased: no whitespace at either
      end, no upper-case letter and no comma. */
  predicate IsCleanName(t: string) {
    && (t == [] || (!IsSpace(t[0]) && !IsSpace(t[|t| - 1])))
    && (forall j :: 0 <= j < |t| ==> !IsUpper(t[j]) && t[j] != ',')
  }

  /** `get_author_names`: one normalized name per piece of the split. */
  function GetAuthorNames(s: string): (names: seq<string>)
    ensures |names| == |RawSplit(s).pieces|
  {
    var raw := RawSplit(s).pieces;
    seq(|raw|, k requires 0 <= k < |raw| => Lower(Strip(raw[k])))
  }

  // ---------------------------------------------------------------------
  // Counting: one piece per separator match, plus one.
  // ---------------------------------------------------------------------

  /** Every match position at or after i starts its own separator: the
      matches of `,` and `\band\b` never overlap. */
  lemma {:induction false} SplitFromCountsMatches(s: string, start: nat, i: nat)
    requires start <= i <= |s|
    ensures |SplitFrom(s, start, i).separators| == MatchCount(s, i)
    decreases |s| - i
  {
    if i < |s| {
      var n := MatchLen(s, i);
      if n == 0 {
        SplitFromCountsMatches(s, start, i + 1);
      } else {
        SplitFromCountsMatches(s, i + n, i + n);
        if n == 3 {
          assert !IsMatch(s, i + 1) && !IsMatch(s, i + 2);
          assert MatchCount(s, i + 1) == MatchCount(s, i + 3);
        }
      }
    }
  }

  /** `get_author_names` returns one name per separator match plus one;
      empty pieces are never dropped. */
  lemma NamesCountMatches(s: string)
    ensures |GetAuthorNames(s)| == MatchCount(s, 0) + 1
  {
    SplitFromCountsMatches(s, 0, 0);
  }

  // ---------------------------------------------------------------------
  // Round trip: the raw pieces and separators give back the input.
  // ---------------------------------------------------------------------

  /** The unstripped pieces, in order, rejoined with the separators that
      were matched, are the original string; every separator is `,` or
      `and`. */
  lemma SplitRoundTrip(s: string)
    ensures Interleave(RawSplit(s).pieces, RawSplit(s).separators) == s
    ensures forall k :: 0 <= k < |RawSplit(s).separators| ==> RawSplit(s).separators[k] in {",", "and"}
  {
    SplitFromRoundTrip(s, 0, 0);
    SplitFromSeparators(s, 0, 0);
  }

  lemma InterleaveCons(p: string, sep: string, ps: seq<string>, seps: seq<string>)
    requires |ps| == |seps| + 1
    ensures Interleave([p] + ps, [sep] + seps) == p + sep + Interleave(ps, seps)
  {
    assert ([p] + ps)[1..] == ps;
    assert ([sep] + seps)[1..] == seps;
  }

  lemma SliceThree(s: string, a: nat, b: nat, c: nat)
    requires a <= b <= c <= |s|
    ensures s[a..] == s[a..b] + s[b..c] + s[c..]
  {
  }

  /** The pieces and separators a scan produces from `start` on rejoin to
      the rest of the string. */
  lemma {:induction false} SplitFromRoundTrip(s: string, start: nat, i: nat)
    requires start <= i <= |s|
    ensures Interleave(SplitFrom(s, start, i).pieces, SplitFrom(s, start, i).separators) == s[start..]
    decreases |s| - i
  {
    if i < |s| {
      var n := MatchLen(s, i);
      if n == 0 {
        SplitFromRoundTrip(s, start, i + 1);
      } else {
        var rest := SplitFrom(s, i + n, i + n);
        assert SplitFrom(s, start, i) == Split([s[start..i]] + rest.pieces, [s[i..i + n]] + rest.separators);
        SplitFromRoundTrip(s, i + n, i + n);
        InterleaveCons(s[start..i], s[i..i + n], rest.pieces, rest.separators);
        SliceThree(s, start, i, i + n);
      }
    }
  }

  lemma {:induction false} SplitFromSeparators(s: string, start: nat, i: nat)
    requires start <= i <= |s|
    ensures forall k :: 0 <= k < |SplitFrom(s, start, i).separators| ==>
      SplitFrom(s, start, i).separators[k] in {",", "and"}
    decreases |s| - i
  {
    if i < |s| {
      var n := MatchLen(s, i);
      if n == 0 {
        SplitFromSeparators(s, start, i + 1);
      } else {
        SplitFromSeparators(s, i + n, i + n);
      }
    }
  }

  // ---------------------------------------------------------------------
  // No piece holds a separator.
  // ---------------------------------------------------------------------

  /** Position a of s is a word boundary, or the character after it cannot
      begin a word `and`. */
  predicate LeftBounded(s: string, a: nat)
    requires a <= |s|
  {
    a == 0 || a == |s| || !IsWordChar(s[a - 1]) || !IsWordChar(s[a])
  }

  /** Position b of s is a word boundary, or the character before it cannot
      end a word `and`. */
  predicate RightBounded(s: string, b: nat)
    requires b <= |s|
  {
    b == 0 || b == |s| || !IsWordChar(s[b]) || !IsWordChar(s[b - 1])
  }

  /** A standalone `and` inside a bounded slice is a standalone `and` of
      the whole string. */
  lemma AndInSlice(s: string, a: nat, b: nat, j: nat)
    requires a <= b <= |s|
    requires LeftBounded(s, a) && RightBounded(s, b)
    requires AndAt(s[a..b], j)
    ensures AndAt(s, a + j)
  {
  }

  /** A bounded slice whose positions are all free of matches in s has no
      separator when read on its own. */
  lemma SliceNoSeparator(s: string, a: nat, b: nat)
    requires a <= b <= |s|
    requires LeftBounded(s, a) && RightBounded(s, b)
    requires forall k :: a <= k < b ==> !IsMatch(s, k)
    ensures NoSeparator(s[a..b])
  {
    var t := s[a..b];
    forall j | 0 <= j < |t|
      ensures t[j] != ',' && !AndAt(t, j)
    {
      assert !IsMatch(s, a + j);
      if AndAt(t, j) {
        AndInSlice(s, a, b, j);
      }
    }
  }

  /** Every piece of the list has no separator. */
  predicate AllNoSeparator(ps: seq<string>) {
    forall k :: 0 <= k < |ps| ==> NoSeparator(ps[k])
  }

  lemma AllNoSeparatorCons(p: string, ps: seq<string>)
    requires NoSeparator(p) && AllNoSeparator(ps)
    ensures AllNoSeparator([p] + ps)
  {
    var qs := [p] + ps;
    forall k | 0 <= k < |qs|
      ensures NoSeparator(qs[k])
    {
      if k > 0 {
        assert qs[k] == ps[k - 1];
      }
    }
  }

  /** The pieces a scan produces from `start` on hold no separator. */
  lemma {:induction false} SplitFromPiecesClean(s: string, start: nat, i: nat)
    requires start <= i <= |s|
    requires LeftBounded(s, start)
    requires forall k :: start <= k < i ==> !IsMatch(s, k)
    ensures AllNoSeparator(SplitFrom(s, start, i).pieces)
    decreases |s| - i
  {
    if i == |s| {
      SliceNoSeparator(s, start, |s|);
      assert s[start..|s|] == s[start..];
      AllNoSeparatorCons(s[start..], []);
      assert [s[start..]] + [] == [s[start..]];
    } else {
      var n := MatchLen(s, i);
      if n == 0 {
        SplitFromPiecesClean(s, start, i + 1);
      } else {
        SliceNoSeparator(s, start, i);
        assert LeftBounded(s, i + n);
        SplitFromPiecesClean(s, i + n, i + n);
        AllNoSeparatorCons(s[start..i], SplitFrom(s, i + n, i + n).pieces);
      }
    }
  }

  /** No raw piece contains a comma or a standalone lower-case `and`. */
  lemma RawPiecesHaveNoSeparator(s: string)
    ensures AllNoSeparator(RawSplit(s).pieces)
  {
    SplitFromPiecesClean(s, 0, 0);
  }

  /** Stripping whitespace cannot create a separator. */
  lemma StripKeepsNoSeparator(t: string)
    requires NoSeparator(t)
    ensures NoSeparator(Strip(t))
  {
    StripSpec(t);
    var a, b := LeadingSpaces(t), StripEnd(t);
    assert a > 0 ==> IsSpace(t[a - 1]);
    assert b < |t| ==> IsSpace(t[b]);
    forall k | a <= k < b
      ensures !IsMatch(t, k)
    {
    }
    SliceNoSeparator(t, a, b);
  }

  /** No stripped piece contains a comma or a standalone lower-case `and`. */
  lemma StrippedPiecesHaveNoSeparator(s: string)
    ensures forall k :: 0 <= k < |RawSplit(s).pieces| ==> NoSeparator(Strip(RawSplit(s).pieces[k]))
  {
    RawPiecesHaveNoSeparator(s);
    forall k | 0 <= k < |RawSplit(s).pieces|
      ensures NoSeparator(Strip(RawSplit(s).pieces[k]))
    {
      StripKeepsNoSeparator(RawSplit(s).pieces[k]);
    }
  }

  /** A stripped, lower-cased piece without a comma is a clean name. */
  lemma NormalizedIsClean(t: string)
    requires forall j :: 0 <= j < |t| ==> t[j] != ','
    ensures IsCleanName(Lower(Strip(t)))
  {
    StripSpec(t);
    LowerSpec(Strip(t));
  }

  /** Every returned name has no whitespace at either end, no upper-case
      letter and no comma. */
  lemma NamesAreClean(s: string)
    ensures forall k :: 0 <= k < |GetAuthorNames(s)| ==> IsCleanName(GetAuthorNames(s)[k])
  {
    RawPiecesHaveNoSeparator(s);
    var raw := RawSplit(s).pieces;
    forall k | 0 <= k < |raw|
      ensures IsCleanName(GetAuthorNames(s)[k])
    {
      forall j | 0 <= j < |raw[k]|
        ensures raw[k][j] != ','
      {
        assert !IsMatch(raw[k], j);
      }
      NormalizedIsClean(raw[k]);
    }
  }

  /** A standalone `and` inside a returned name was written with at least
      one upper-case letter: `And` and `AND` are not separators, and they
      only read as `and` after lower-casing. */
  lemma AndInNameWasUpperCase(s: string, k: nat, j: nat)
    requires k < |GetAuthorNames(s)|
    requires AndAt(GetAuthorNames(s)[k], j)
    ensures var t := Strip(RawSplit(s).pieces[k]);
      IsUpper(t[j]) || IsUpper(t[j + 1]) || IsUpper(t[j + 2])
  {
    StrippedPiecesHaveNoSeparator(s);
    var t := Strip(RawSplit(s).pieces[k]);
    assert |GetAuthorNames(s)[k]| == |t|;
    assert !IsMatch(t, j);
  }

  // ---------------------------------------------------------------------
  // Edge cases of the split.
  // ---------------------------------------------------------------------

  /** The empty string yields one empty name. */
  lemma EmptyInputGivesOneEmptyName()
    ensures GetAuthorNames("") == [""]
  {
  }

  lemma {:induction false} SplitFromTrailingComma(s: string, start: nat, i: nat)
    requires start <= i < |s| && s[|s| - 1] == ','
    ensures var ps := SplitFrom(s, start, i).pieces; ps[|ps| - 1] == ""
    decreases |s| - i
  {
    var n := MatchLen(s, i);
    if n == 0 {
      SplitFromTrailingComma(s, start, i + 1);
    } else if i + n < |s| {
      SplitFromTrailingComma(s, i + n, i + n);
    }
  }

  /** A trailing comma yields a trailing empty name. */
  lemma TrailingCommaGivesEmptyLastName(s: string)
    requires |s| > 0 && s[|s| - 1] == ','
    ensures var names := GetAuthorNames(s); names[|names| - 1] == ""
  {
    SplitFromTrailingComma(s, 0, 0);
  }

  lemma {:induction false} SplitFromNoMatch(s: string, start: nat, i: nat)
    requires start <= i <= |s|
    requires forall k :: i <= k < |s| ==> !IsMatch(s, k)
    ensures SplitFrom(s, start, i) == Split([s[start..]], [])
    decreases |s| - i
  {
    if i < |s| {
      SplitFromNoMatch(s, start, i + 1);
    }
  }

  /** A scan that meets no match between i and j leaves the pieces alone. */
  lemma {:induction false} SplitFromSkip(s: string, start: nat, i: nat, j: nat)
    requires start <= i <= j <= |s|
    requires forall k :: i <= k < j ==> !IsMatch(s, k)
    ensures SplitFrom(s, start, i) == SplitFrom(s, start, j)
    decreases j - i
  {
    if i < j {
      SplitFromSkip(s, start, i + 1, j);
    }
  }

  /** Every comma cuts the scan: the piece that begins right after it is
      one of the pieces, whatever matches come before it. An `and` match
      holds no comma, so the scan cannot jump over one. */
  lemma {:induction false} SplitFromReachesComma(s: string, start: nat, i: nat, p: nat)
    requires start <= i <= p < |s| && s[p] == ','
    ensures SplitFrom(s, p + 1, p + 1).pieces[0] in SplitFrom(s, start, i).pieces
    decreases |s| - i
  {
    var n := MatchLen(s, i);
    if n == 0 {
      SplitFromReachesComma(s, start, i + 1, p);
    } else if i < p {
      assert i + n <= p by {
        if n == 3 {
          assert s[i + 1] == 'n' && s[i + 2] == 'd';
        }
      }
      SplitFromReachesComma(s, i + n, i + n, p);
    }
  }

  /** The comma at p is followed only by whitespace up to j, and j is the
      end of s or the start of another match (`"A,"`, `"A, , B"`,
      `"A, and B"`): the piece after that comma is blank. */
  predicate BlankAfterComma(s: string, p: nat, j: nat) {
    && p < j <= |s| && s[p] == ','
    && (forall k :: p < k < j ==> IsSpace(s[k]))
    && (j == |s| || IsMatch(s, j))
  }

  lemma BlankPieceAfterComma(s: string, p: nat, j: nat)
    requires BlankAfterComma(s, p, j)
    ensures SplitFrom(s, p + 1, p + 1).pieces[0] == s[p + 1..j]
  {
    SplitFromSkip(s, p + 1, p + 1, j);
  }

  /** A comma followed by nothing but whitespace before the next separator
      or the end of the string yields the empty name. */
  lemma EmptyNameAfterComma(s: string, p: nat, j: nat)
    requires BlankAfterComma(s, p, j)
    ensures "" in GetAuthorNames(s)
  {
    var raw := RawSplit(s).pieces;
    var t := s[p + 1..j];
    SplitFromReachesComma(s, 0, 0, p);
    BlankPieceAfterComma(s, p, j);
    var k :| 0 <= k < |raw| && raw[k] == t;
    StripAt(t, 0, 0);
    assert GetAuthorNames(s)[k] == Lower([]);
  }

  /** A string without a comma and without a lower-case standalone `and` is
      one name, whatever upper-case `AND` it holds. */
  lemma NoSeparatorGivesOneName(s: string)
    requires NoSeparator(s)
    ensures GetAuthorNames(s) == [Lower(Strip(s))]
  {
    SplitFromNoMatch(s, 0, 0);
  }
}
